/**
  A line monitor over a stream of text chunks: re-chunking, numbering, findings.
 */
module LogMonitor {
  datatype Severity = Warning | Error

  /** A rule is known by what it matches and what it ignores. */
  datatype Rule = Rule(id: string, severity: Severity, matches: string -> bool, ignores: string -> bool,
      isStackTrace: bool)
  datatype Patterns = Patterns(rules: seq<Rule>, channelFrame: string -> bool, closedChannel: string -> bool)
  datatype Finding = Finding(rule: string, severity: Severity, line: string, lineNumber: nat)

  // ----- Splitting -----

  /** The pieces between matches of \r?\n, left to right; current is the piece so far. */
  function Pieces(text: string, current: string): (pieces: seq<string>)
    ensures |pieces| > 0
  {
    if text == "" then [current]
    else if text[0] == '\r' && |text| > 1 && text[1] == '\n' then [current] + Pieces(text[2..], "")
    else if text[0] == '\n' then [current] + Pieces(text[1..], "")
    else Pieces(text[1..], current + [text[0]])
  }

  function TrimReturn(line: string): string {
    if line != "" && line[|line| - 1] == '\r' then line[..|line| - 1] else line
  }

  /** The same split, one character at a time: complete lines, and the line in progress. */
  datatype Split = Split(lines: seq<string>, rest: string)

  function Feed(s: Split, text: string): Split
    decreases text
  {
    if text == "" then s
    else if text[0] == '\n' then Feed(Split(s.lines + [TrimReturn(s.rest)], ""), text[1..])
    else Feed(Split(s.lines, s.rest + [text[0]]), text[1..])
  }

  function SplitOf(text: string): Split { Feed(Split([], ""), text) }

  lemma {:induction false} FeedConcat(s: Split, a: string, b: string)
    ensures Feed(s, a + b) == Feed(Feed(s, a), b)
    decreases a
  {
    if a == "" {
      assert a + b == b;
    } else {
      assert (a + b)[1..] == a[1..] + b;
      var next := if a[0] == '\n' then Split(s.lines + [TrimReturn(s.rest)], "") else Split(s.lines, s.rest + [a[0]]);
      FeedConcat(next, a[1..], b);
    }
  }

  /** Lines already complete do not influence the rest. */
  lemma {:induction false} FeedShift(before: seq<string>, s: Split, text: string)
    ensures Feed(Split(before + s.lines, s.rest), text)
         == Split(before + Feed(s, text).lines, Feed(s, text).rest)
    decreases text
  {
    if text != "" {
      if text[0] == '\n' {
        var next := Split(s.lines + [TrimReturn(s.rest)], "");
        assert before + next.lines == before + s.lines + [TrimReturn(s.rest)];
        FeedShift(before, next, text[1..]);
      } else {
        FeedShift(before, Split(s.lines, s.rest + [text[0]]), text[1..]);
      }
    }
  }

  lemma {:induction false} FeedOneLine(s: Split, text: string)
    requires '\n' !in text
    ensures Feed(s, text) == Split(s.lines, s.rest + text)
    decreases text
  {
    if text == "" {
      assert s.rest + text == s.rest;
    } else {
      FeedOneLine(Split(s.lines, s.rest + [text[0]]), text[1..]);
      assert s.rest + [text[0]] + text[1..] == s.rest + text;
    }
  }

  /** The scanner for \r?\n splits at newlines and drops one return before each. */
  lemma {:induction false} ScannerSplits(text: string, current: string)
    requires !(current != "" && current[|current| - 1] == '\r' && text != "" && text[0] == '\n')
    ensures Pieces(text, current) == Feed(Split([], current), text).lines + [Feed(Split([], current), text).rest]
    decreases |text|, 0
  {
    if text == "" {
    } else if text[0] == '\r' && |text| > 1 && text[1] == '\n' {
      assert text[1..][1..] == text[2..] && text[1..][0] == '\n';
      assert TrimReturn(current + ['\r']) == current;
      AfterLine(current, text[2..]);
    } else if text[0] == '\n' {
      AfterLine(current, text[1..]);
    } else {
      ScannerSplits(text[1..], current + [text[0]]);
    }
  }

  lemma AfterLine(line: string, text: string)
    ensures Feed(Split([] + [line], ""), text) == Split([line] + SplitOf(text).lines, SplitOf(text).rest)
    ensures Pieces(text, "") == SplitOf(text).lines + [SplitOf(text).rest]
    decreases |text|, 1
  {
    FeedShift([line], Split([], ""), text);
    assert [line] + [] == [] + [line];
    ScannerSplits(text, "");
  }

  lemma {:induction false} RestHasNoNewline(s: Split, text: string)
    requires '\n' !in s.rest
    ensures '\n' !in Feed(s, text).rest
    decreases text
  {
    if text != "" {
      if text[0] == '\n' { RestHasNoNewline(Split(s.lines + [TrimReturn(s.rest)], ""), text[1..]); }
      else { RestHasNoNewline(Split(s.lines, s.rest + [text[0]]), text[1..]); }
    }
  }

  /** Text already cut off as a partial line can be scanned again with what follows. */
  lemma ScanAgain(before: string, chunk: string)
    ensures SplitOf(before + chunk).lines == SplitOf(before).lines + SplitOf(SplitOf(before).rest + chunk).lines
    ensures SplitOf(before + chunk).rest == SplitOf(SplitOf(before).rest + chunk).rest
  {
    var s := SplitOf(before);
    FeedConcat(Split([], ""), before, chunk);
    RestHasNoNewline(Split([], ""), before);
    FeedConcat(Split([], ""), s.rest, chunk);
    FeedOneLine(Split([], ""), s.rest);
    assert "" + s.rest == s.rest;
    FeedShift(s.lines, Split([], s.rest), chunk);
    assert s.lines + [] == s.lines;
  }

  // ----- What a split is, without a scanner -----

  predicate Separates(line: string, separator: string) {
    && '\n' !in line
    && (separator == "\r\n" || (separator == "\n" && (line == "" || line[|line| - 1] != '\r')))
  }

  function Interleave(lines: seq<string>, separators: seq<string>): string
    requires |lines| == |separators|
  {
    if lines == [] then ""
    else Interleave(lines[..|lines| - 1], separators[..|lines| - 1]) + lines[|lines| - 1] + separators[|lines| - 1]
  }

  /** Nothing is lost but the separators: the text is its lines, each followed by the
      one separator it was cut at, and then the rest. */
  lemma {:induction false} Reassembles(text: string) returns (separators: seq<string>)
    ensures var s := SplitOf(text);
      && |separators| == |s.lines|
      && (forall i :: 0 <= i < |s.lines| ==> Separates(s.lines[i], separators[i]))
      && '\n' !in s.rest
      && text == Interleave(s.lines, separators) + s.rest
  {
    separators := [];
    if text != "" {
      var init, c := text[..|text| - 1], text[|text| - 1];
      separators := Reassembles(init);
      var s := SplitOf(init);
      assert init + [c] == text;
      FeedConcat(Split([], ""), init, [c]);
      assert [c][1..] == "";
      if c == '\n' {
        var line := TrimReturn(s.rest);
        var separator := if line == s.rest then "\n" else "\r\n";
        var longer := separators + [separator];
        assert line + separator == s.rest + "\n";
        assert (s.lines + [line])[..|s.lines|] == s.lines && longer[..|s.lines|] == separators;
        assert Interleave(s.lines, separators) + line + separator == Interleave(s.lines, separators) + s.rest + "\n";
        separators := longer;
      } else {
        assert Interleave(s.lines, separators) + s.rest + [c] == Interleave(s.lines, separators) + (s.rest + [c]);
      }
    }
  }

  // ----- Findings -----

  function RuleFindings(p: Patterns, rules: seq<Rule>, previous: string, line: string, number: nat): seq<Finding> {
    if rules == [] then []
    else
      var init, rule := rules[..|rules| - 1], rules[|rules| - 1];
      var before := RuleFindings(p, init, previous, line, number);
      if rule.isStackTrace && p.channelFrame(line) && p.closedChannel(previous) then before
      else if rule.matches(line) && !rule.ignores(line) then before + [Finding(rule.id, rule.severity, line, number)]
      else before
  }

  function Previous(lines: seq<string>): string {
    if |lines| < 2 then "" else lines[|lines| - 2]
  }

  /** The findings of a whole log, line by line. */
  function Findings(p: Patterns, lines: seq<string>): seq<Finding> {
    if lines == [] then []
    else Findings(p, lines[..|lines| - 1]) + RuleFindings(p, p.rules, Previous(lines), lines[|lines| - 1], |lines|)
  }

  // ----- What is found, without a scan -----

  /** The rule reports line n, counted from 0: the line matches, is not ignored, and is not
      the frame of a closed channel that the line before it announced. */
  predicate Reports(p: Patterns, rule: Rule, lines: seq<string>, n: nat)
    requires n < |lines|
  {
    && rule.matches(lines[n]) && !rule.ignores(lines[n])
    && !(rule.isStackTrace && p.channelFrame(lines[n]) && p.closedChannel(if n == 0 then "" else lines[n - 1]))
  }

  /** A line and a rule. */
  datatype Place = Place(line: nat, rule: nat)

  predicate IsReport(p: Patterns, lines: seq<string>, place: Place) {
    place.line < |lines| && place.rule < |p.rules| && Reports(p, p.rules[place.rule], lines, place.line)
  }

  predicate Before(a: Place, b: Place) { a.line < b.line || (a.line == b.line && a.rule < b.rule) }

  function FindingAt(p: Patterns, lines: seq<string>, place: Place): Finding
    requires place.line < |lines| && place.rule < |p.rules|
  {
    Finding(p.rules[place.rule].id, p.rules[place.rule].severity, lines[place.line], place.line + 1)
  }

  predicate Sound(p: Patterns, lines: seq<string>, findings: seq<Finding>, places: seq<Place>) {
    && |places| == |findings|
    && forall i :: 0 <= i < |places| ==>
         IsReport(p, lines, places[i]) && findings[i] == FindingAt(p, lines, places[i])
  }

  predicate Ordered(places: seq<Place>) {
    forall i, j :: 0 <= i < j < |places| ==> Before(places[i], places[j])
  }

  /** One finding for each report, line by line and rule by rule. */
  ghost predicate Lists(p: Patterns, lines: seq<string>, findings: seq<Finding>, places: seq<Place>) {
    && Sound(p, lines, findings, places) && Ordered(places)
    && forall place :: IsReport(p, lines, place) ==> place in places
  }

  /** The findings of a log are its reports, each once and in order. */
  lemma {:induction false} FindingsAreReports(p: Patterns, lines: seq<string>) returns (places: seq<Place>)
    ensures Lists(p, lines, Findings(p, lines), places)
  {
    if lines == [] {
      places := [];
    } else {
      var n := |lines| - 1;
      var init := FindingsAreReports(p, lines[..n]);
      var last := LineReports(p, lines, |p.rules|);
      assert p.rules[..|p.rules|] == p.rules;
      hide Sound, Ordered, IsReport, RuleFindings;
      places := init + last;
      SoundNext(p, lines, Findings(p, lines[..n]), init, RuleFindings(p, p.rules, Previous(lines), lines[n], |lines|),
          last);
      OrderedNext(p, lines, Findings(p, lines[..n]), init, last);
      forall place | IsReport(p, lines, place) ensures place in places {
        ReportIsPlace(p, lines, place);
        assert place in if place.line < n then init else last;
      }
    }
  }

  lemma ReportIsPlace(p: Patterns, lines: seq<string>, place: Place)
    requires IsReport(p, lines, place)
    ensures var n := |lines| - 1;
      if place.line < n then IsReport(p, lines[..n], place)
      else place == Place(n, place.rule) && place.rule < |p.rules|
  {
  }

  lemma SoundNext(p: Patterns, lines: seq<string>, before: seq<Finding>, init: seq<Place>, found: seq<Finding>,
      last: seq<Place>)
    requires lines != [] && Sound(p, lines[..|lines| - 1], before, init) && Sound(p, lines, found, last)
    ensures Sound(p, lines, before + found, init + last)
  {
    hide Reports;
    var n := |lines| - 1;
    forall i | 0 <= i < |init|
      ensures IsReport(p, lines, init[i]) && FindingAt(p, lines, init[i]) == FindingAt(p, lines[..n], init[i])
    {
      assert IsReport(p, lines[..n], init[i]);
      EarlierReport(p, lines, n, init[i]);
    }
  }

  lemma EarlierReport(p: Patterns, lines: seq<string>, n: nat, place: Place)
    requires place.line < n <= |lines|
    ensures IsReport(p, lines[..n], place) <==> IsReport(p, lines, place)
  {
  }

  lemma OrderedNext(p: Patterns, lines: seq<string>, before: seq<Finding>, init: seq<Place>, last: seq<Place>)
    requires lines != [] && Sound(p, lines[..|lines| - 1], before, init) && Ordered(init) && Ordered(last)
    requires forall i :: 0 <= i < |last| ==> last[i].line == |lines| - 1
    ensures Ordered(init + last)
  {
    hide Reports, FindingAt;
    assert forall i :: 0 <= i < |init| ==> init[i].line < |lines| - 1;
  }

  lemma {:induction false} LineReports(p: Patterns, lines: seq<string>, k: nat) returns (places: seq<Place>)
    requires lines != [] && k <= |p.rules|
    ensures Sound(p, lines, RuleFindings(p, p.rules[..k], Previous(lines), lines[|lines| - 1], |lines|), places)
    ensures Ordered(places)
    ensures forall i :: 0 <= i < |places| ==> places[i].line == |lines| - 1 && places[i].rule < k
    ensures forall place :: IsReport(p, lines, place) && place.line == |lines| - 1 && place.rule < k ==> place in places
    decreases k
  {
    if k == 0 {
      places := [];
    } else {
      places := LineReports(p, lines, k - 1);
      assert p.rules[..k][..k - 1] == p.rules[..k - 1];
      if Reports(p, p.rules[k - 1], lines, |lines| - 1) { places := places + [Place(|lines| - 1, k - 1)]; }
    }
  }

  // ----- The monitor -----

  datatype View = View(lines: seq<string>, findings: seq<Finding>, partial: string)

  /** What a chunk does to the monitor. */
  function Accepted(p: Patterns, s: View, chunk: string): View {
    var pieces := Pieces(s.partial + chunk, "");
    var lines := s.lines + pieces[..|pieces| - 1];
    View(lines, Findings(p, lines), pieces[|pieces| - 1])
  }

  function AcceptedAll(p: Patterns, s: View, chunks: seq<string>): View {
    if chunks == [] then s else Accepted(p, AcceptedAll(p, s, chunks[..|chunks| - 1]), chunks[|chunks| - 1])
  }

  function Join(chunks: seq<string>): string {
    if chunks == [] then "" else Join(chunks[..|chunks| - 1]) + chunks[|chunks| - 1]
  }

  predicate Consistent(p: Patterns, s: View) {
    '\n' !in s.partial && s.findings == Findings(p, s.lines)
  }

  /** However a text is cut, between any two characters, the monitor ends with the
      text's own lines, partial line and findings. */
  lemma {:induction false} ChunksDoNotMatter(p: Patterns, s: View, chunks: seq<string>)
    requires Consistent(p, s)
    ensures var split := SplitOf(s.partial + Join(chunks));
      AcceptedAll(p, s, chunks) == View(s.lines + split.lines, Findings(p, s.lines + split.lines), split.rest)
  {
    hide Findings, Pieces, SplitOf, Accepted;
    if chunks == [] {
      assert s.partial + Join(chunks) == s.partial;
      SplitOfOneLine(s.partial);
      assert s.lines + [] == s.lines;
    } else {
      var init, last := chunks[..|chunks| - 1], chunks[|chunks| - 1];
      ChunksDoNotMatter(p, s, init);
      var text := s.partial + Join(init);
      assert s.partial + Join(chunks) == text + last;
      var lines := s.lines + SplitOf(text).lines;
      AcceptedAfter(p, View(lines, Findings(p, lines), SplitOf(text).rest), last);
      ScanAgain(text, last);
      assert s.lines + SplitOf(text).lines + SplitOf(SplitOf(text).rest + last).lines
          == s.lines + SplitOf(text + last).lines;
    }
  }

  lemma SplitOfOneLine(text: string)
    requires '\n' !in text
    ensures SplitOf(text) == Split([], text)
  {
    FeedOneLine(Split([], ""), text);
    assert "" + text == text;
  }

  lemma AcceptedAfter(p: Patterns, s: View, chunk: string)
    ensures var split := SplitOf(s.partial + chunk);
      Accepted(p, s, chunk) == View(s.lines + split.lines, Findings(p, s.lines + split.lines), split.rest)
  {
    ScannerSplits(s.partial + chunk, "");
  }

  lemma ChunkIndependence(p: Patterns, s: View, chunks: seq<string>, others: seq<string>)
    requires Consistent(p, s) && Join(chunks) == Join(others)
    ensures AcceptedAll(p, s, chunks) == AcceptedAll(p, s, others)
  {
    ChunksDoNotMatter(p, s, chunks);
    ChunksDoNotMatter(p, s, others);
  }

  lemma LastPieceIsOpen(value: string)
    ensures '\n' !in Pieces(value, "")[|Pieces(value, "")| - 1]
  {
    ScannerSplits(value, "");
    RestHasNoNewline(Split([], ""), value);
  }

  class Monitor {
    const patterns: Patterns
    var lines: seq<string>
    var findings: seq<Finding>
    var partial: string

    ghost function State(): View
      reads this
    {
      View(lines, findings, partial)
    }

    constructor (patterns: Patterns)
      ensures this.patterns == patterns && State() == View([], [], "") && Consistent(patterns, State())
    {
      this.patterns := patterns;
      lines, findings, partial := [], [], "";
    }

    method AcceptLine(line: string)
      requires findings == Findings(patterns, lines)
      modifies this`lines, this`findings
      ensures lines == old(lines) + [line] && findings == Findings(patterns, lines)
    {
      lines := lines + [line];
      var found := [];
      var i := 0;
      while i < |patterns.rules|
        invariant 0 <= i <= |patterns.rules|
        invariant found == RuleFindings(patterns, patterns.rules[..i], Previous(lines), line, |lines|)
      {
        var rule := patterns.rules[i];
        assert patterns.rules[..i + 1][..i] == patterns.rules[..i];
        i := i + 1;
        if rule.isStackTrace && IsBenignClosedChannelFrame(line) { continue; }
        if rule.matches(line) && !rule.ignores(line) {
          found := found + [Finding(rule.id, rule.severity, line, |lines|)];
        }
      }
      assert patterns.rules[..i] == patterns.rules;
      assert lines[..|lines| - 1] == old(lines);
      findings := findings + found;
    }

    predicate IsBenignClosedChannelFrame(line: string)
      reads this
    {
      patterns.channelFrame(line) && patterns.closedChannel(Previous(lines))
    }

    method Accept(chunk: string)
      requires Consistent(patterns, State())
      modifies this
      ensures State() == Accepted(patterns, old(State()), chunk)
      ensures Consistent(patterns, State())
    {
      hide Pieces, Findings;
      var value := partial + chunk;
      var pieces := Pieces(value, "");
      LastPieceIsOpen(value);
      partial := pieces[|pieces| - 1];
      var i := 0;
      while i < |pieces| - 1
        invariant 0 <= i < |pieces| && partial == pieces[|pieces| - 1]
        invariant lines == old(lines) + pieces[..i]
        invariant findings == Findings(patterns, lines)
      {
        assert pieces[..i + 1] == pieces[..i] + [pieces[i]];
        AcceptLine(pieces[i]);
        i := i + 1;
      }
    }

    method Flush()
      requires Consistent(patterns, State())
      modifies this
      ensures partial == "" && Consistent(patterns, State())
      ensures lines == if old(partial) == "" then old(lines) else old(lines) + [old(partial)]
    {
      if partial != "" { AcceptLine(partial); }
      partial := "";
    }
  }
}
