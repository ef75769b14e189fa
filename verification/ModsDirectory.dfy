/**
  A production mods directory against its manifest: the audit that reports what is
  wrong, and the resolution that needs everything to be right.
 */
module ModsDirectory {
  import opened Wrappers

  // ----- Matching names, ignoring case -----

  function LowerChar(c: char): char {
    if 'A' <= c <= 'Z' then 'a' + (c - 'A') else c
  }

  function Lower(s: string): (r: string)
    ensures |r| == |s|
  {
    seq(|s|, i requires 0 <= i < |s| => LowerChar(s[i]))
  }

  predicate LineTerminator(c: char) { c == '\n' || c == '\r' || c == '\U{2028}' || c == '\U{2029}' }

  /** A name against a pattern in which only * is special. */
  predicate Glob(pattern: string, name: string)
    decreases |pattern| + |name|
  {
    if pattern == "" then name == ""
    else if pattern[0] == '*' then
      Glob(pattern[1..], name) || (name != "" && !LineTerminator(name[0]) && Glob(pattern, name[1..]))
    else name != "" && pattern[0] == name[0] && Glob(pattern[1..], name[1..])
  }

  datatype Locator = File(name: string) | Pattern(glob: string) | NoLocator
  datatype Mod = Mod(id: string, enabled: bool, locator: Locator)

  predicate Matches(mod: Mod, file: string) {
    match mod.locator
    case File(name) => Lower(file) == Lower(name)
    case Pattern(glob) => Glob(Lower(glob), Lower(file))
    case NoLocator => false
  }

  function MatchingFiles(mod: Mod, files: seq<string>): (r: seq<string>)
    ensures forall f :: f in r <==> f in files && Matches(mod, f)
    ensures Distinct(files) ==> Distinct(r)
  {
    if files == [] then []
    else
      var rest := MatchingFiles(mod, files[1..]);
      if Matches(mod, files[0]) then [files[0]] + rest else rest
  }

  predicate Distinct<T(==)>(s: seq<T>) { forall i, j :: 0 <= i < j < |s| ==> s[i] != s[j] }

  predicate CaseDistinct(files: seq<string>) {
    forall i, j :: 0 <= i < j < |files| ==> Lower(files[i]) != Lower(files[j])
  }

  predicate DistinctIds(mods: seq<Mod>) {
    forall i, j :: 0 <= i < j < |mods| ==> mods[i].id != mods[j].id
  }

  /** Matching ignores case, also for patterns. */
  lemma MatchesIgnoresCase(mod: Mod, f: string, g: string)
    ensures Lower(f) == Lower(g) ==> Matches(mod, f) == Matches(mod, g)
  {
  }

  // ----- What matching is, without a matcher -----

  const CAPITALS := "ABCDEFGHIJKLMNOPQRSTUVWXYZ"
  const SMALL := "abcdefghijklmnopqrstuvwxyz"

  predicate SameLetter(c: char, d: char) {
    || c == d
    || exists i :: 0 <= i < 26 && ((c == CAPITALS[i] && d == SMALL[i]) || (d == CAPITALS[i] && c == SMALL[i]))
  }

  predicate SameButCase(a: string, b: string) {
    |a| == |b| && forall i :: 0 <= i < |a| ==> SameLetter(a[i], b[i])
  }

  lemma Alphabet()
    ensures |CAPITALS| == |SMALL| == 26
    ensures forall i :: 0 <= i < 26 ==> CAPITALS[i] == 'A' + (i as char) && SMALL[i] == 'a' + (i as char)
  {
  }

  lemma LowerCharExact(c: char, d: char)
    ensures LowerChar(c) == LowerChar(d) <==> SameLetter(c, d)
  {
    hide CAPITALS, SMALL;
    Alphabet();
    if c != d && LowerChar(c) == LowerChar(d) {
      var i: nat := (LowerChar(c) - 'a') as nat;
      assert {CAPITALS[i], SMALL[i]} == {c, d};
    }
  }

  /** Lower case forgets the case of the 26 letters and nothing else. */
  lemma LowerExact(a: string, b: string)
    ensures Lower(a) == Lower(b) <==> SameButCase(a, b)
  {
    hide LowerChar, SameLetter;
    forall c, d ensures LowerChar(c) == LowerChar(d) <==> SameLetter(c, d) { LowerCharExact(c, d); }
    if Lower(a) == Lower(b) {
      forall i | 0 <= i < |a| ensures SameLetter(a[i], b[i]) {
        assert Lower(a)[i] == LowerChar(a[i]) && Lower(b)[i] == LowerChar(b[i]);
      }
    }
  }

  function Concat(pieces: seq<string>): string {
    if pieces == [] then "" else pieces[0] + Concat(pieces[1..])
  }

  /** A star stands for any run without line terminators, any other character for itself, in
      either case. */
  predicate StandsFor(symbol: char, piece: string) {
    if symbol == '*' then forall c :: c in piece ==> !LineTerminator(c)
    else |piece| == 1 && SameLetter(piece[0], symbol)
  }

  /** The name, cut into one piece for each character of the pattern. */
  predicate Fits(pattern: string, pieces: seq<string>, name: string) {
    && |pieces| == |pattern| && name == Concat(pieces)
    && forall i :: 0 <= i < |pattern| ==> StandsFor(pattern[i], pieces[i])
  }

  lemma LowerFirst(s: string)
    requires s != ""
    ensures Lower(s) != "" && Lower(s)[0] == LowerChar(s[0]) && Lower(s)[1..] == Lower(s[1..])
    ensures Lower(s)[0] == '*' <==> s[0] == '*'
    ensures LineTerminator(Lower(s)[0]) <==> LineTerminator(s[0])
  {
  }

  lemma FitsFirst(pattern: string, pieces: seq<string>, name: string)
    requires pattern != ""
    ensures Fits(pattern, pieces, name) <==>
              && pieces != [] && pieces[0] <= name && StandsFor(pattern[0], pieces[0])
              && Fits(pattern[1..], pieces[1..], name[|pieces[0]|..])
  {
    if Fits(pattern, pieces, name) {
      assert name == pieces[0] + Concat(pieces[1..]);
    }
    if pieces != [] && pieces[0] <= name && StandsFor(pattern[0], pieces[0])
       && Fits(pattern[1..], pieces[1..], name[|pieces[0]|..]) {
      assert name == pieces[0] + name[|pieces[0]|..];
      forall i | 0 < i < |pattern| ensures StandsFor(pattern[i], pieces[i]) {
        assert StandsFor(pattern[1..][i - 1], pieces[1..][i - 1]);
      }
    }
  }

  lemma {:induction false} GlobFits(pattern: string, name: string) returns (pieces: seq<string>)
    requires Glob(Lower(pattern), Lower(name))
    ensures Fits(pattern, pieces, name)
    decreases |pattern| + |name|
  {
    hide Fits, SameLetter, LowerChar, LineTerminator;
    if pattern == "" {
      pieces := [];
      assert Fits(pattern, pieces, name) by { NothingFits(pattern, name); }
    } else {
      LowerFirst(pattern);
      if name != "" { LowerFirst(name); }
      if pattern[0] != '*' {
        LowerCharExact(name[0], pattern[0]);
        var rest := GlobFits(pattern[1..], name[1..]);
        pieces := [[name[0]]] + rest;
        assert pieces[1..] == rest;
      } else if Glob(Lower(pattern[1..]), Lower(name)) {
        var rest := GlobFits(pattern[1..], name);
        pieces := [""] + rest;
        assert pieces[1..] == rest;
      } else {
        var more := GlobFits(pattern, name[1..]);
        FitsFirst(pattern, more, name[1..]);
        pieces := [[name[0]] + more[0]] + more[1..];
        assert pieces[1..] == more[1..];
        assert name[|pieces[0]|..] == name[1..][|more[0]|..];
      }
      FitsFirst(pattern, pieces, name);
    }
  }

  lemma NothingFits(pattern: string, name: string)
    requires pattern == ""
    ensures Fits(pattern, [], name) <==> Lower(name) == ""
    ensures forall pieces :: Fits(pattern, pieces, name) ==> name == ""
  {
  }

  lemma {:induction false} FitsGlob(pattern: string, pieces: seq<string>, name: string)
    requires Fits(pattern, pieces, name)
    ensures Glob(Lower(pattern), Lower(name))
    decreases |pattern| + |name|
  {
    hide Fits, SameLetter, LowerChar, LineTerminator;
    if pattern == "" {
      NothingFits(pattern, name);
    } else {
      FitsFirst(pattern, pieces, name);
      LowerFirst(pattern);
      if name != "" { LowerFirst(name); }
      if pattern[0] != '*' {
        LowerCharExact(name[0], pattern[0]);
        FitsGlob(pattern[1..], pieces[1..], name[1..]);
      } else if pieces[0] == "" {
        FitsGlob(pattern[1..], pieces[1..], name);
      } else {
        var less := [pieces[0][1..]] + pieces[1..];
        assert less[1..] == pieces[1..] && name[1..][|less[0]|..] == name[|pieces[0]|..];
        FitsFirst(pattern, less, name[1..]);
        FitsGlob(pattern, less, name[1..]);
      }
    }
  }

  /** A file matches a mod's name if it is that name but for the case of letters, and its
      pattern if it can be cut so that each piece is what the pattern says there. */
  lemma MatchesExact(mod: Mod, file: string)
    ensures match mod.locator
      case File(name) => Matches(mod, file) <==> SameButCase(file, name)
      case Pattern(glob) => Matches(mod, file) <==> exists pieces :: Fits(glob, pieces, file)
      case NoLocator => !Matches(mod, file)
  {
    hide Fits, Glob, SameButCase;
    match mod.locator {
      case File(name) => LowerExact(file, name);
      case Pattern(glob) =>
        if Matches(mod, file) { var pieces := GlobFits(glob, file); }
        if pieces :| Fits(glob, pieces, file) { FitsGlob(glob, pieces, file); }
      case NoLocator =>
    }
  }

  // ----- What a sound directory is -----

  predicate RightCount(mod: Mod, files: seq<string>) {
    |MatchingFiles(mod, files)| == if mod.enabled then 1 else 0
  }

  /** One jar per enabled mod, none for a disabled one. */
  predicate RightCounts(mods: seq<Mod>, files: seq<string>) {
    forall m :: m in mods ==> RightCount(m, files)
  }

  /** Two mods want the same name, up to case. */
  predicate Clash(a: Mod, b: Mod, files: seq<string>) {
    exists f, g :: f in MatchingFiles(a, files) && g in MatchingFiles(b, files) && Lower(f) == Lower(g)
  }

  predicate Disjoint(mods: seq<Mod>, files: seq<string>) {
    forall i, j :: 0 <= i < j < |mods| ==> !Clash(mods[i], mods[j], files)
  }

  predicate Claims(mods: seq<Mod>, files: seq<string>, f: string) {
    exists i :: 0 <= i < |mods| && f in MatchingFiles(mods[i], files)
  }

  predicate Declared(mods: seq<Mod>, files: seq<string>) {
    forall f :: f in files ==> Claims(mods, files, f)
  }

  predicate Sound(mods: seq<Mod>, files: seq<string>) {
    RightCounts(mods, files) && Disjoint(mods, files) && Declared(mods, files)
  }

  // ----- The audit -----

  datatype Finding =
    | MissingJar(id: string)
    | AmbiguousJar(id: string)
    | DisabledPresent(id: string)
    | MatchCollision(file: string, ids: seq<string>)
    | UndeclaredJar(file: string)

  /** What is wrong with the number of jars of one mod. */
  function CountFinding(mod: Mod, files: seq<string>): seq<Finding> {
    var count := |MatchingFiles(mod, files)|;
    if mod.enabled then (if count == 0 then [MissingJar(mod.id)] else if count > 1 then [AmbiguousJar(mod.id)] else [])
    else if count > 0 then [DisabledPresent(mod.id)] else []
  }

  /** The id, once per occurrence of the name. */
  function Repeats(id: string, names: seq<string>, name: string): seq<string> {
    if names == [] then []
    else Repeats(id, names[..|names| - 1], name) + if names[|names| - 1] == name then [id] else []
  }

  /** The mods that match a file of this lower-cased name, once per such file. */
  function Claimants(mods: seq<Mod>, files: seq<string>, name: string): seq<string> {
    if mods == [] then []
    else
      var init, last := mods[..|mods| - 1], mods[|mods| - 1];
      Claimants(init, files, name) + Repeats(last.id, LowerAll(MatchingFiles(last, files)), name)
  }

  /** What each finding says of the directory. */
  predicate Justified(finding: Finding, mods: seq<Mod>, files: seq<string>) {
    match finding
    case MatchCollision(name, ids) => ids == Claimants(mods, files, name) && |ids| > 1
    case UndeclaredJar(file) => file in files && !Claims(mods, files, file)
    case _ => Miscounted(finding, mods, files)
  }

  predicate Miscounted(finding: Finding, mods: seq<Mod>, files: seq<string>) {
    exists m :: m in mods && finding in CountFinding(m, files)
  }

  function LowerAll(files: seq<string>): seq<string> {
    if files == [] then [] else LowerAll(files[..|files| - 1]) + [Lower(files[|files| - 1])]
  }

  /** Every lower-cased name some mod matches, mod by mod. */
  function Claimed(mods: seq<Mod>, files: seq<string>): seq<string> {
    if mods == [] then []
    else Claimed(mods[..|mods| - 1], files) + LowerAll(MatchingFiles(mods[|mods| - 1], files))
  }

  lemma {:induction false} InLowerAll(files: seq<string>, n: string)
    ensures n in LowerAll(files) <==> exists f :: f in files && Lower(f) == n
  {
    if files != [] {
      var init, last := files[..|files| - 1], files[|files| - 1];
      InLowerAll(init, n);
      assert files == init + [last];
    }
  }

  lemma {:induction false} InClaimed(mods: seq<Mod>, files: seq<string>, n: string)
    ensures n in Claimed(mods, files) <==> exists f :: Claims(mods, files, f) && Lower(f) == n
  {
    hide Lower, MatchingFiles;
    if mods != [] {
      var init, last := mods[..|mods| - 1], mods[|mods| - 1];
      InClaimed(init, files, n);
      InLowerAll(MatchingFiles(last, files), n);
      forall f ensures Claims(mods, files, f) <==> Claims(init, files, f) || f in MatchingFiles(last, files) {
        if Claims(init, files, f) {
          var i :| 0 <= i < |init| && f in MatchingFiles(init[i], files);
          assert f in MatchingFiles(mods[i], files);
        }
        if f in MatchingFiles(last, files) { assert f in MatchingFiles(mods[|mods| - 1], files); }
      }
    }
  }

  predicate NoneTwice(names: seq<string>) {
    forall n :: n in names ==> multiset(names)[n] == 1
  }

  lemma NoneTwiceNext(names: seq<string>, more: seq<string>)
    requires |more| <= 1
    ensures NoneTwice(names + more) <==> NoneTwice(names) && forall n :: n in more ==> n !in names
  {
    if |more| == 1 {
      assert names + more == names + [more[0]];
      assert multiset(names + more) == multiset(names) + multiset{more[0]};
      if NoneTwice(names + more) {
        forall n | n in names ensures multiset(names)[n] == 1 { assert n in names + more; }
        assert more[0] in names + more;
      }
    } else {
      assert names + more == names;
    }
  }

  /** With the right counts, a repeated name is a clash of two mods. */
  lemma {:induction false} RepeatMeansClash(mods: seq<Mod>, files: seq<string>)
    requires RightCounts(mods, files)
    ensures NoneTwice(Claimed(mods, files)) <==> Disjoint(mods, files)
  {
    if mods != [] {
      var n := |mods| - 1;
      var init, last := mods[..n], mods[n];
      assert RightCount(last, files);
      assert forall m :: m in init ==> m in mods;
      RepeatMeansClash(init, files);
      var more := LowerAll(MatchingFiles(last, files));
      LowerAllLength(MatchingFiles(last, files));
      NoneTwiceNext(Claimed(init, files), more);
      hide Lower, MatchingFiles, RightCounts, Clash, NoneTwice;
      assert (forall m :: m in more ==> m !in Claimed(init, files))
        <==> (forall i :: 0 <= i < n ==> !Clash(mods[i], last, files)) by {
        LastClashes(mods, files);
      }
      assert Disjoint(mods, files)
        <==> (Disjoint(init, files) && forall i :: 0 <= i < n ==> !Clash(mods[i], last, files)) by {
        DisjointNext(mods, files);
      }
    }
  }

  lemma {:induction false} LowerAllLength(files: seq<string>)
    ensures |LowerAll(files)| == |files|
  {
    if files != [] { LowerAllLength(files[..|files| - 1]); }
  }

  lemma DisjointNext(mods: seq<Mod>, files: seq<string>)
    requires mods != []
    ensures var n := |mods| - 1;
      Disjoint(mods, files) <==>
        (Disjoint(mods[..n], files) && forall i :: 0 <= i < n ==> !Clash(mods[i], mods[n], files))
  {
  }

  lemma LastClashes(mods: seq<Mod>, files: seq<string>)
    requires mods != []
    ensures var n := |mods| - 1;
      (forall m :: m in LowerAll(MatchingFiles(mods[n], files)) ==> m !in Claimed(mods[..n], files))
      <==> forall i :: 0 <= i < n ==> !Clash(mods[i], mods[n], files)
  {
    hide *;
    var n := |mods| - 1;
    var more, before := LowerAll(MatchingFiles(mods[n], files)), Claimed(mods[..n], files);
    if exists i :: 0 <= i < n && Clash(mods[i], mods[n], files) {
      var i :| 0 <= i < n && Clash(mods[i], mods[n], files);
      var m := ClashIsShared(mods[..n], mods[n], files, i);
      assert m in more && m in before;
    }
    if exists m :: m in more && m in before {
      var m :| m in more && m in before;
      var i := SharedIsClash(mods[..n], mods[n], files, m);
      assert Clash(mods[i], mods[n], files);
    }
  }

  lemma ClashIsShared(init: seq<Mod>, last: Mod, files: seq<string>, i: nat) returns (m: string)
    requires i < |init| && Clash(init[i], last, files)
    ensures m in LowerAll(MatchingFiles(last, files)) && m in Claimed(init, files)
  {
    hide Lower, MatchingFiles, LowerAll, Claimed;
    var f, g :| f in MatchingFiles(init[i], files) && g in MatchingFiles(last, files) && Lower(f) == Lower(g);
    m := Lower(f);
    assert Claims(init, files, f);
    InClaimed(init, files, m);
    InLowerAll(MatchingFiles(last, files), m);
  }

  lemma SharedIsClash(init: seq<Mod>, last: Mod, files: seq<string>, m: string) returns (i: nat)
    requires m in LowerAll(MatchingFiles(last, files)) && m in Claimed(init, files)
    ensures i < |init| && Clash(init[i], last, files)
  {
    hide Lower, MatchingFiles, LowerAll, Claimed;
    InClaimed(init, files, m);
    InLowerAll(MatchingFiles(last, files), m);
    var f :| Claims(init, files, f) && Lower(f) == m;
    i :| 0 <= i < |init| && f in MatchingFiles(init[i], files);
  }

  /** Because matching ignores case, a claimed lower-cased name is a claimed name. */
  lemma UsedMeansDeclared(mods: seq<Mod>, files: seq<string>)
    ensures forall f :: f in files ==> (Lower(f) in Claimed(mods, files) <==> Claims(mods, files, f))
    ensures (forall f :: f in files ==> Lower(f) in Claimed(mods, files)) <==> Declared(mods, files)
  {
    hide Lower, Claimed, Matches;
    forall f | f in files ensures Lower(f) in Claimed(mods, files) <==> Claims(mods, files, f) {
      InClaimed(mods, files, Lower(f));
      if Lower(f) in Claimed(mods, files) {
        var g :| Claims(mods, files, g) && Lower(g) == Lower(f);
        var i :| 0 <= i < |mods| && g in MatchingFiles(mods[i], files);
        MatchesIgnoresCase(mods[i], f, g);
        assert f in MatchingFiles(mods[i], files);
      }
    }
  }

  function IdsOf(claims: map<string, seq<string>>, name: string): seq<string> {
    if name in claims then claims[name] else []
  }

  /** The map of claims counts the names claimed so far. */
  ghost predicate Counts(claims: map<string, seq<string>>, names: seq<string>) {
    forall n :: multiset(names)[n] == (if n in claims then |claims[n]| else 0) && (n in claims ==> |claims[n]| > 0)
  }

  lemma LowerAllNext(files: seq<string>, m: nat)
    requires m <= |files|
    ensures m < |files| ==> LowerAll(files[..m + 1]) == LowerAll(files[..m]) + [Lower(files[m])]
    ensures LowerAll(files[..0]) == []
  {
    if m < |files| { assert files[..m + 1][..m] == files[..m]; }
  }

  lemma CountsNext(claims: map<string, seq<string>>, names: seq<string>, name: string, id: string)
    requires Counts(claims, names)
    ensures var more := claims[name := IdsOf(claims, name) + [id]];
      && Counts(more, names + [name])
      && forall n :: IdsOf(more, n) == IdsOf(claims, n) + if n == name then [id] else []
  {
  }

  /** The inner loop over one mod's matches. */
  method RecordMatches(id: string, matches: seq<string>, used0: set<string>, claims0: map<string, seq<string>>,
      ghost names: seq<string>)
    returns (used: set<string>, claims: map<string, seq<string>>)
    requires used0 == claims0.Keys && Counts(claims0, names)
    ensures used == claims.Keys && Counts(claims, names + LowerAll(matches))
    ensures forall n :: IdsOf(claims, n) == IdsOf(claims0, n) + Repeats(id, LowerAll(matches), n)
  {
    hide Lower, Counts, LowerAll, Repeats, IdsOf;
    LowerAllNext(matches, 0);
    RepeatsNext(id, [], "");
    used, claims := used0, claims0;
    assert names + LowerAll(matches[..0]) == names;
    var m := 0;
    while m < |matches|
      invariant 0 <= m <= |matches|
      invariant used == claims.Keys && Counts(claims, names + LowerAll(matches[..m]))
      invariant forall n :: IdsOf(claims, n) == IdsOf(claims0, n) + Repeats(id, LowerAll(matches[..m]), n)
    {
      var normalized := Lower(matches[m]);
      LowerAllNext(matches, m);
      RepeatsNext(id, LowerAll(matches[..m]), normalized);
      assert names + LowerAll(matches[..m + 1]) == names + LowerAll(matches[..m]) + [normalized];
      CountsNext(claims, names + LowerAll(matches[..m]), normalized, id);
      used := used + {normalized};
      claims := claims[normalized := IdsOf(claims, normalized) + [id]];
      m := m + 1;
    }
    assert matches[..m] == matches;
  }

  lemma RepeatsNext(id: string, names: seq<string>, next: string)
    ensures forall n :: Repeats(id, [], n) == []
    ensures forall n :: Repeats(id, names + [next], n) == Repeats(id, names, n) + if n == next then [id] else []
  {
    assert (names + [next])[..|names|] == names;
  }

  /** An empty report means a sound directory, and every finding says what is wrong:
      a finding is reported if and only if it is justified. */
  method AuditModsDirectory(mods: seq<Mod>, files: seq<string>) returns (findings: seq<Finding>)
    ensures findings == [] <==> Sound(mods, files)
    ensures forall x :: x in findings <==> Justified(x, mods, files)
  {
    hide Lower, MatchingFiles, Disjoint, Declared, RightCounts, Counts, CountFinding, Miscounted, Claimants, Claims,
      Repeats, Claimed;
    NothingYet(files);
    var used: set<string> := {};
    var claims: map<string, seq<string>> := map[];
    findings := [];
    var k := 0;
    while k < |mods|
      invariant 0 <= k <= |mods|
      invariant used == claims.Keys && Counts(claims, Claimed(mods[..k], files))
      invariant forall n :: IdsOf(claims, n) == Claimants(mods[..k], files, n)
      invariant findings == [] <==> RightCounts(mods[..k], files)
      invariant forall x :: x in findings <==> Miscounted(x, mods[..k], files)
    {
      var mod := mods[k];
      var matches := MatchingFiles(mod, files);
      ClaimsNext(mods, files, k);
      used, claims := RecordMatches(mod.id, matches, used, claims, Claimed(mods[..k], files));
      CountsFoundNext(mods, files, k);
      findings := ReportCount(mod, files, matches, findings);
      k := k + 1;
    }
    assert mods[..k] == mods;
    ClaimsTell(mods, files, claims);
    findings := ReportCollisions(claims, findings);
    findings := ReportUndeclared(files, used, findings);
    JustifiedExactly(mods, files, claims, findings);
  }

  lemma ClaimsNext(mods: seq<Mod>, files: seq<string>, k: nat)
    requires k < |mods|
    ensures Claimed(mods[..k + 1], files) == Claimed(mods[..k], files) + LowerAll(MatchingFiles(mods[k], files))
    ensures forall n :: Claimants(mods[..k + 1], files, n)
                     == Claimants(mods[..k], files, n)
                          + Repeats(mods[k].id, LowerAll(MatchingFiles(mods[k], files)), n)
  {
    assert mods[..k + 1][..k] == mods[..k];
  }

  lemma CountsFoundNext(mods: seq<Mod>, files: seq<string>, k: nat)
    requires k < |mods|
    ensures RightCounts(mods[..k + 1], files)
       <==> RightCounts(mods[..k], files) && CountFinding(mods[k], files) == []
    ensures forall x :: Miscounted(x, mods[..k + 1], files)
                   <==> Miscounted(x, mods[..k], files) || x in CountFinding(mods[k], files)
  {
    assert mods[..k + 1] == mods[..k] + [mods[k]];
    assert RightCount(mods[k], files) <==> CountFinding(mods[k], files) == [];
    hide RightCount, CountFinding, MatchingFiles;
  }

  lemma JustifiedExactly(mods: seq<Mod>, files: seq<string>, claims: map<string, seq<string>>, findings: seq<Finding>)
    requires forall n :: IdsOf(claims, n) == Claimants(mods, files, n)
    requires forall f :: f in files ==> (Lower(f) in claims <==> Claims(mods, files, f))
    requires forall x :: x in findings <==>
               || Miscounted(x, mods, files)
               || IsCollision(x, claims)
               || (x.UndeclaredJar? && x.file in files && Lower(x.file) !in claims)
    ensures forall x :: x in findings <==> Justified(x, mods, files)
  {
    hide Lower, Claims, Claimants, MatchingFiles;
    forall x ensures x in findings <==> Justified(x, mods, files) {
      match x {
        case MatchCollision(name, ids) => assert IdsOf(claims, name) == Claimants(mods, files, name);
        case UndeclaredJar(file) =>
        case _ =>
      }
    }
  }

  predicate IsCollision(x: Finding, claims: map<string, seq<string>>) {
    x.MatchCollision? && x.file in claims && |claims[x.file]| > 1 && x.ids == claims[x.file]
  }

  method ReportCount(mod: Mod, files: seq<string>, matches: seq<string>, before: seq<Finding>)
    returns (findings: seq<Finding>)
    requires matches == MatchingFiles(mod, files)
    ensures findings == before + CountFinding(mod, files)
  {
    findings := before;
    if mod.enabled && |matches| == 0 {
      findings := findings + [MissingJar(mod.id)];
    } else if mod.enabled && |matches| > 1 {
      findings := findings + [AmbiguousJar(mod.id)];
    } else if !mod.enabled && |matches| > 0 {
      findings := findings + [DisabledPresent(mod.id)];
    }
  }

  lemma NothingYet(files: seq<string>)
    ensures Counts(map[], Claimed([], files)) && RightCounts([], files)
    ensures forall n :: Claimants([], files, n) == []
    ensures forall x :: !Miscounted(x, [], files)
  {
  }

  /** What the finished map of claims says about the directory. */
  lemma ClaimsTell(mods: seq<Mod>, files: seq<string>, claims: map<string, seq<string>>)
    requires Counts(claims, Claimed(mods, files))
    ensures RightCounts(mods, files) ==> (Disjoint(mods, files) <==> forall n :: n in claims ==> |claims[n]| <= 1)
    ensures Declared(mods, files) <==> forall f :: f in files ==> Lower(f) in claims
    ensures forall f :: f in files ==> (Lower(f) in claims <==> Claims(mods, files, f))
  {
    hide Counts, Claimed, RightCounts, Disjoint, Declared, NoneTwice, Lower;
    if RightCounts(mods, files) { RepeatMeansClash(mods, files); }
    UsedMeansDeclared(mods, files);
    CountsExact(claims, Claimed(mods, files));
  }

  lemma CountsExact(claims: map<string, seq<string>>, names: seq<string>)
    requires Counts(claims, names)
    ensures forall n :: n in claims <==> n in names
    ensures NoneTwice(names) <==> forall n :: n in claims ==> |claims[n]| <= 1
  {
  }

  method ReportCollisions(claims: map<string, seq<string>>, before: seq<Finding>) returns (findings: seq<Finding>)
    ensures findings == [] <==> before == [] && forall n :: n in claims ==> |claims[n]| <= 1
    ensures forall x :: x in findings <==> x in before || IsCollision(x, claims)
  {
    findings := before;
    var left := claims.Keys;
    while left != {}
      invariant left <= claims.Keys
      invariant findings == [] <==> before == [] && forall n :: n in claims && n !in left ==> |claims[n]| <= 1
      invariant forall x :: x in findings <==> x in before || (IsCollision(x, claims) && x.file !in left)
      decreases left
    {
      var file :| file in left;
      if |claims[file]| > 1 { findings := findings + [MatchCollision(file, claims[file])]; }
      left := left - {file};
    }
  }

  method ReportUndeclared(files: seq<string>, used: set<string>, before: seq<Finding>) returns (findings: seq<Finding>)
    ensures findings == [] <==> before == [] && forall f :: f in files ==> Lower(f) in used
    ensures forall x :: x in findings <==>
              x in before || (x.UndeclaredJar? && x.file in files && Lower(x.file) !in used)
  {
    hide Lower;
    findings := before;
    var i := 0;
    while i < |files|
      invariant 0 <= i <= |files|
      invariant findings == [] <==> before == [] && forall j :: 0 <= j < i ==> Lower(files[j]) in used
      invariant forall x :: x in findings <==>
                  x in before || (x.UndeclaredJar? && x.file in files[..i] && Lower(x.file) !in used)
    {
      assert files[..i + 1] == files[..i] + [files[i]];
      if Lower(files[i]) !in used { findings := findings + [UndeclaredJar(files[i])]; }
      i := i + 1;
    }
    assert files[..i] == files;
  }

  // ----- The resolution -----

  datatype ResolveError =
    | ArtifactMismatch(id: string, found: seq<string>)
    | ArtifactCollision(file: string, other: string)

  function Enabled(mods: seq<Mod>): seq<Mod> {
    if mods == [] then []
    else
      var before, last := Enabled(mods[..|mods| - 1]), mods[|mods| - 1];
      if last.enabled then before + [last] else before
  }

  /** Each of these enabled mods has one jar, and no two share a name up to case. */
  predicate Resolvable(enabled: seq<Mod>, files: seq<string>) {
    && (forall i :: 0 <= i < |enabled| ==> |MatchingFiles(enabled[i], files)| == 1)
    && Disjoint(enabled, files)
  }

  ghost predicate ResolvesTo(artifacts: map<string, string>, enabled: seq<Mod>, files: seq<string>) {
    && (forall id :: id in artifacts ==> exists m :: m in enabled && m.id == id)
    && (forall m :: m in enabled ==> m.id in artifacts && MatchingFiles(m, files) == [artifacts[m.id]])
  }

  /** The mod's one jar has this lower-cased name. */
  predicate HoldsName(mod: Mod, files: seq<string>, name: string) {
    |MatchingFiles(mod, files)| == 1 && Lower(MatchingFiles(mod, files)[0]) == name
  }

  /** What the error says of mod k, the first that cannot be resolved. */
  predicate Blames(error: ResolveError, enabled: seq<Mod>, files: seq<string>, k: nat) {
    && k < |enabled| && Resolvable(enabled[..k], files) && !Resolvable(enabled[..k + 1], files)
    && match error
       case ArtifactMismatch(id, found) =>
         id == enabled[k].id && found == MatchingFiles(enabled[k], files) && |found| != 1
       case ArtifactCollision(file, other) =>
         && MatchingFiles(enabled[k], files) == [file]
         && exists i :: 0 <= i < k && enabled[i].id == other && HoldsName(enabled[i], files, Lower(file))
  }

  /** The map of claimed names: each name claimed so far, under the id of its mod. */
  ghost predicate ClaimedBy(claimed: map<string, string>, enabled: seq<Mod>, files: seq<string>, k: nat)
    requires k <= |enabled|
  {
    && (forall n :: n in claimed <==> n in Claimed(enabled[..k], files))
    && forall n :: n in claimed ==>
         claimed[n] != "" && exists i :: 0 <= i < k && enabled[i].id == claimed[n] && HoldsName(enabled[i], files, n)
  }

  method ResolveProductionArtifacts(mods: seq<Mod>, files: seq<string>)
      returns (r: Result<map<string, string>, ResolveError>)
    requires DistinctIds(mods) && forall i :: 0 <= i < |mods| ==> mods[i].id != ""
    ensures r.Ok? <==> Resolvable(Enabled(mods), files)
    ensures r.Ok? ==> ResolvesTo(r.value, Enabled(mods), files)
    ensures r.Err? ==> exists k :: Blames(r.error, Enabled(mods), files, k)
  {
    hide Lower, MatchingFiles, Resolvable, ResolvesTo, Blames, ClaimedBy, DistinctIds;
    var enabled := Enabled(mods);
    EnabledNamed(mods);
    NothingResolved(enabled, files);
    var artifacts: map<string, string> := map[];
    var claimed: map<string, string> := map[];
    var k := 0;
    while k < |enabled|
      invariant 0 <= k <= |enabled|
      invariant Resolvable(enabled[..k], files)
      invariant ClaimedBy(claimed, enabled, files, k)
      invariant ResolvesTo(artifacts, enabled[..k], files)
    {
      var mod := enabled[k];
      var matches := MatchingFiles(mod, files);
      if |matches| != 1 {
        Mismatch(enabled, files, k);
        return Err(ArtifactMismatch(mod.id, matches));
      }
      var jar := matches[0];
      var normalized := Lower(jar);
      ClaimedByNext(claimed, enabled, files, k, jar);
      if normalized in claimed && claimed[normalized] != "" {
        return Err(ArtifactCollision(jar, claimed[normalized]));
      }
      ResolvesToNext(artifacts, enabled, files, k, jar);
      claimed := claimed[normalized := mod.id];
      artifacts := artifacts[mod.id := jar];
      k := k + 1;
    }
    assert enabled[..k] == enabled;
    return Ok(artifacts);
  }

  lemma NothingResolved(enabled: seq<Mod>, files: seq<string>)
    ensures Resolvable(enabled[..0], files) && ClaimedBy(map[], enabled, files, 0)
    ensures ResolvesTo(map[], enabled[..0], files)
  {
  }

  lemma EnabledNamed(mods: seq<Mod>)
    requires DistinctIds(mods) && forall i :: 0 <= i < |mods| ==> mods[i].id != ""
    ensures DistinctIds(Enabled(mods)) && forall i :: 0 <= i < |Enabled(mods)| ==> Enabled(mods)[i].id != ""
  {
    EnabledExact(mods);
    forall i | 0 <= i < |Enabled(mods)| ensures Enabled(mods)[i].id != "" { assert Enabled(mods)[i] in mods; }
  }

  lemma Mismatch(enabled: seq<Mod>, files: seq<string>, k: nat)
    requires k < |enabled| && Resolvable(enabled[..k], files) && |MatchingFiles(enabled[k], files)| != 1
    ensures Blames(ArtifactMismatch(enabled[k].id, MatchingFiles(enabled[k], files)), enabled, files, k)
    ensures !Resolvable(enabled, files)
  {
    hide Lower, MatchingFiles, Disjoint;
    ResolvableNext(enabled, files, k);
  }

  /** Mod k's one jar: either its name is new, and is claimed next, or the error tells
      who claimed it. */
  lemma ClaimedByNext(claimed: map<string, string>, enabled: seq<Mod>, files: seq<string>, k: nat, jar: string)
    requires k < |enabled| && Resolvable(enabled[..k], files) && ClaimedBy(claimed, enabled, files, k)
    requires MatchingFiles(enabled[k], files) == [jar] && enabled[k].id != ""
    ensures Lower(jar) in claimed ==>
              && claimed[Lower(jar)] != "" && !Resolvable(enabled, files)
              && Blames(ArtifactCollision(jar, claimed[Lower(jar)]), enabled, files, k)
    ensures Lower(jar) !in claimed ==>
              && Resolvable(enabled[..k + 1], files)
              && ClaimedBy(claimed[Lower(jar) := enabled[k].id], enabled, files, k + 1)
  {
    hide Lower, MatchingFiles, Resolvable, Claimed;
    ResolvableNext(enabled, files, k);
    OneClaim(enabled, files, k, jar);
    assert HoldsName(enabled[k], files, Lower(jar));
  }

  /** The resolution can go on past mod k exactly when it has one jar nobody claimed. */
  lemma ResolvableNext(enabled: seq<Mod>, files: seq<string>, k: nat)
    requires k < |enabled| && Resolvable(enabled[..k], files)
    ensures Resolvable(enabled[..k + 1], files) <==>
      |MatchingFiles(enabled[k], files)| == 1 && Lower(MatchingFiles(enabled[k],
          files)[0]) !in Claimed(enabled[..k], files)
    ensures Resolvable(enabled, files) ==> Resolvable(enabled[..k + 1], files)
  {
    hide Lower, MatchingFiles, Clash, Claimed, LowerAll;
    var more := enabled[..k + 1];
    assert more[..k] == enabled[..k] && more[k] == enabled[k] && forall i :: 0 <= i < k ==> more[i] == enabled[..k][i];
    if |MatchingFiles(enabled[k], files)| == 1 {
      DisjointNext(more, files);
      LastClashes(more, files);
      LowerAllOne(MatchingFiles(enabled[k], files));
    }
    if Resolvable(enabled, files) {
      forall i | 0 <= i < |more| ensures |MatchingFiles(more[i], files)| == 1 {
        assert more[i] == enabled[i];
      }
      forall i, j | 0 <= i < j < |more| ensures !Clash(more[i], more[j], files) {
        assert more[i] == enabled[i] && more[j] == enabled[j];
      }
    }
  }

  lemma LowerAllOne(files: seq<string>)
    requires |files| == 1
    ensures LowerAll(files) == [Lower(files[0])]
  {
    assert files[..0] == [] && LowerAll(files[..0]) == [];
  }

  lemma OneClaim(enabled: seq<Mod>, files: seq<string>, k: nat, jar: string)
    requires k < |enabled| && MatchingFiles(enabled[k], files) == [jar]
    ensures Claimed(enabled[..k + 1], files) == Claimed(enabled[..k], files) + [Lower(jar)]
  {
    assert enabled[..k + 1][..k] == enabled[..k];
    LowerAllOne([jar]);
  }

  lemma ResolvesToNext(artifacts: map<string, string>, enabled: seq<Mod>, files: seq<string>, k: nat, jar: string)
    requires k < |enabled| && MatchingFiles(enabled[k], files) == [jar] && DistinctIds(enabled)
    requires ResolvesTo(artifacts, enabled[..k], files)
    ensures ResolvesTo(artifacts[enabled[k].id := jar], enabled[..k + 1], files)
  {
  }

  lemma {:induction false} EnabledExact(mods: seq<Mod>)
    requires DistinctIds(mods)
    ensures DistinctIds(Enabled(mods))
    ensures forall m :: m in Enabled(mods) <==> m in mods && m.enabled
  {
    if mods != [] {
      var init, last := mods[..|mods| - 1], mods[|mods| - 1];
      assert mods == init + [last];
      EnabledExact(init);
    }
  }

  // ----- What a clean audit guarantees -----

  /** A bijection between the enabled mods' ids and the jars of the directory. */
  ghost predicate Bijection(artifacts: map<string, string>, mods: seq<Mod>, files: seq<string>) {
    && (forall id :: id in artifacts <==> exists m :: m in mods && m.enabled && m.id == id)
    && (forall a, b :: a in artifacts && b in artifacts && artifacts[a] == artifacts[b] ==> a == b)
    && (forall f :: f in files <==> exists id :: id in artifacts && artifacts[id] == f)
  }

  predicate DisabledAbsent(mods: seq<Mod>, files: seq<string>) {
    forall m :: m in mods && !m.enabled ==> MatchingFiles(m, files) == []
  }

  /** Disjointness does not depend on positions. */
  lemma DisjointIffApart(mods: seq<Mod>, files: seq<string>)
    requires DistinctIds(mods)
    ensures Disjoint(mods, files)
       <==> forall a, b :: a in mods && b in mods && a.id != b.id ==> !Clash(a, b, files)
  {
  }

  lemma SoundIsResolvable(mods: seq<Mod>, files: seq<string>)
    requires Sound(mods, files) && DistinctIds(mods)
    ensures Resolvable(Enabled(mods), files)
  {
    hide Clash, MatchingFiles, Disjoint, Enabled;
    EnabledExact(mods);
    DisjointIffApart(mods, files);
    DisjointIffApart(Enabled(mods), files);
    forall i | 0 <= i < |Enabled(mods)| ensures |MatchingFiles(Enabled(mods)[i], files)| == 1 {
      assert RightCount(Enabled(mods)[i], files);
    }
  }

  /** In a sound directory each jar has one owner, and is that owner's only jar. */
  lemma Owner(mods: seq<Mod>, files: seq<string>, f: string) returns (m: Mod)
    requires Sound(mods, files) && f in files
    ensures m in mods && m.enabled && MatchingFiles(m, files) == [f]
  {
    hide Lower, Matches, Disjoint;
    assert Claims(mods, files, f);
    var i :| 0 <= i < |mods| && f in MatchingFiles(mods[i], files);
    m := mods[i];
    assert RightCount(m, files);
  }

  lemma SoundIsInjective(mods: seq<Mod>, files: seq<string>, artifacts: map<string, string>)
    requires Sound(mods, files) && DistinctIds(mods) && ResolvesTo(artifacts, Enabled(mods), files)
    ensures forall a, b :: a in artifacts && b in artifacts && artifacts[a] == artifacts[b] ==> a == b
  {
    EnabledExact(mods);
    DisjointIffApart(mods, files);
    hide Lower, Matches, Disjoint, Declared, Enabled, RightCounts, DistinctIds, Clash, MatchingFiles;
    forall a, b | a in artifacts && b in artifacts && artifacts[a] == artifacts[b] ensures a == b {
      var m :| m in Enabled(mods) && m.id == a;
      var n :| n in Enabled(mods) && n.id == b;
      SameJarClashes(m, n, files, artifacts[a]);
    }
  }

  lemma SameJarClashes(m: Mod, n: Mod, files: seq<string>, jar: string)
    requires MatchingFiles(m, files) == [jar] && MatchingFiles(n, files) == [jar]
    ensures Clash(m, n, files)
  {
    assert jar in MatchingFiles(m, files) && jar in MatchingFiles(n, files);
  }

  lemma SoundIsOnto(mods: seq<Mod>, files: seq<string>, artifacts: map<string, string>)
    requires Sound(mods, files) && DistinctIds(mods) && ResolvesTo(artifacts, Enabled(mods), files)
    ensures forall f :: f in files <==> exists id :: id in artifacts && artifacts[id] == f
  {
    EnabledExact(mods);
    hide Lower, Matches, Disjoint, Declared, Enabled, Clash, Sound, RightCounts;
    forall f ensures f in files <==> exists id :: id in artifacts && artifacts[id] == f {
      if f in files {
        var m := Owner(mods, files, f);
        assert m in Enabled(mods) && artifacts[m.id] == f;
      }
      if exists id :: id in artifacts && artifacts[id] == f {
        var id :| id in artifacts && artifacts[id] == f;
        var m :| m in Enabled(mods) && m.id == id;
        assert f in MatchingFiles(m, files);
      }
    }
  }

  lemma SoundIsBijection(mods: seq<Mod>, files: seq<string>, artifacts: map<string, string>)
    requires Sound(mods, files) && DistinctIds(mods) && ResolvesTo(artifacts, Enabled(mods), files)
    ensures Bijection(artifacts, mods, files) && DisabledAbsent(mods, files)
  {
    hide Lower, Matches, Enabled, MatchingFiles, Sound, DistinctIds, DisabledAbsent;
    SoundIsInjective(mods, files, artifacts);
    SoundIsOnto(mods, files, artifacts);
    SoundHidesDisabled(mods, files);
    EnabledExact(mods);
  }

  lemma SoundHidesDisabled(mods: seq<Mod>, files: seq<string>)
    requires Sound(mods, files)
    ensures DisabledAbsent(mods, files)
  {
    hide MatchingFiles, Disjoint, Declared;
    forall m | m in mods && !m.enabled ensures MatchingFiles(m, files) == [] { assert RightCount(m, files); }
  }

  /** No two jars of a sound directory have the same name up to case. */
  lemma SoundIsCaseDistinct(mods: seq<Mod>, files: seq<string>)
    requires Sound(mods, files) && Distinct(files)
    ensures CaseDistinct(files)
  {
    forall i, j | 0 <= i < j < |files| ensures Lower(files[i]) != Lower(files[j]) {
      var m := Owner(mods, files, files[i]);
      assert files[i] in MatchingFiles(m, files);
      assert files[j] in MatchingFiles(m, files) <==> Matches(m, files[j]);
      MatchesIgnoresCase(m, files[i], files[j]);
    }
  }

  lemma BijectionIsSound(mods: seq<Mod>, files: seq<string>, artifacts: map<string, string>)
    requires DistinctIds(mods) && Resolvable(Enabled(mods), files) && ResolvesTo(artifacts, Enabled(mods), files)
    requires Bijection(artifacts, mods, files) && DisabledAbsent(mods, files)
    ensures Sound(mods, files)
  {
    EnabledExact(mods);
    DisjointIffApart(mods, files);
    DisjointIffApart(Enabled(mods), files);
    hide Lower, Matches, Enabled, Disjoint;
    forall a, b | a in mods && b in mods && a.id != b.id ensures !Clash(a, b, files) {
      if a.enabled && b.enabled { assert a in Enabled(mods) && b in Enabled(mods); }
    }
    forall m | m in mods ensures RightCount(m, files) {
      if m.enabled { assert m in Enabled(mods); }
    }
    forall f | f in files ensures Claims(mods, files, f) {
      var id :| id in artifacts && artifacts[id] == f;
      var m :| m in mods && m.enabled && m.id == id;
      assert m in Enabled(mods);
      var i :| 0 <= i < |mods| && mods[i] == m;
      assert f in MatchingFiles(mods[i], files);
    }
  }

  /** Both operations on one listing.  The directory audits clean if and only if the
      manifest resolves, the resolution is a bijection between enabled mods and jars,
      and no disabled mod matches a jar. */
  method AuditThenResolve(mods: seq<Mod>, files: seq<string>)
    returns (findings: seq<Finding>, r: Result<map<string, string>, ResolveError>)
    requires DistinctIds(mods) && forall i :: 0 <= i < |mods| ==> mods[i].id != ""
    ensures findings == [] <==> r.Ok? && Bijection(r.value, mods, files) && DisabledAbsent(mods, files)
    ensures findings == [] && Distinct(files) ==> CaseDistinct(files)
  {
    hide *;
    findings := AuditModsDirectory(mods, files);
    r := ResolveProductionArtifacts(mods, files);
    if findings == [] {
      SoundIsResolvable(mods, files);
      SoundIsBijection(mods, files, r.value);
      if Distinct(files) { SoundIsCaseDistinct(mods, files); }
    }
    if r.Ok? && Bijection(r.value, mods, files) && DisabledAbsent(mods, files) {
      BijectionIsSound(mods, files, r.value);
    }
  }
}
