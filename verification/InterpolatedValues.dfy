/**
  What interpolation puts where: texts cut at their placeholders, trees path by path,
  and the manifest that is loaded.
 */
module InterpolatedValues {
  import opened Wrappers
  import opened Interpolation

  // ----- A text, cut at its placeholders -----

  datatype Piece = Literal(character: char) | Hole(key: string)

  /** The text that the pieces spell. */
  function Spelled(pieces: seq<Piece>): string {
    if pieces == [] then ""
    else
      var first := match pieces[0] case Literal(c) => [c] case Hole(key) => "${" + key + "}";
      first + Spelled(pieces[1..])
  }

  /** A placeholder is written at the start of the text. */
  ghost predicate StartsPlaceholder(s: string) {
    exists key :: key != "" && '}' !in key && "${" + key + "}" <= s
  }

  /** The pieces spell the text, and no placeholder starts at a literal character. */
  ghost predicate IsCut(pieces: seq<Piece>, s: string) {
    && Spelled(pieces) == s
    && forall i :: 0 <= i < |pieces| ==>
         match pieces[i]
         case Literal(_) => !StartsPlaceholder(Spelled(pieces[i..]))
         case Hole(key) => key != "" && '}' !in key
  }

  lemma PlaceholderStarts(s: string)
    ensures StartsPlaceholder(s) <==> KeyAt(s).Some?
  {
    if KeyAt(s).Some? {
      var key := KeyAt(s).value;
      KeyAtExact(s, key);
      assert "${" + key + "}" <= s;
    }
    if StartsPlaceholder(s) {
      var key :| key != "" && '}' !in key && "${" + key + "}" <= s;
      KeyAtExact(s, key);
    }
  }

  lemma RestIsCut(pieces: seq<Piece>, s: string)
    requires IsCut(pieces, s) && pieces != []
    ensures IsCut(pieces[1..], Spelled(pieces[1..]))
    ensures match pieces[0]
            case Literal(c) => s != "" && s[0] == c && s[1..] == Spelled(pieces[1..]) && KeyAt(s).None?
            case Hole(key) => KeyAt(s) == Some(key) && s[|Written(key)|..] == Spelled(pieces[1..])
  {
    assert pieces[0..] == pieces;
    var rest := pieces[1..];
    assert forall i :: 0 <= i < |rest| ==> rest[i] == pieces[i + 1] && rest[i..] == pieces[i + 1..];
    match pieces[0] {
      case Literal(c) =>
        assert s == [c] + Spelled(pieces[1..]);
        PlaceholderStarts(s);
      case Hole(key) =>
        assert s == Written(key) + Spelled(pieces[1..]);
        KeyAtExact(s, key);
    }
  }

  /** Every text can be cut. */
  lemma {:induction false} CutExists(s: string) returns (pieces: seq<Piece>)
    ensures IsCut(pieces, s)
    decreases |s|
  {
    if s == "" {
      pieces := [];
    } else {
      var first := if KeyAt(s).Some? then Hole(KeyAt(s).value) else Literal(s[0]);
      if KeyAt(s).Some? { KeyAtExact(s, KeyAt(s).value); }
      var tail := if first.Hole? then s[|Written(first.key)|..] else s[1..];
      var rest := CutExists(tail);
      pieces := [first] + rest;
      assert pieces[1..] == rest && pieces[0..] == pieces;
      assert s == Spelled(pieces);
      PlaceholderStarts(s);
      forall i | 0 < i < |pieces| ensures pieces[i] == rest[i - 1] && pieces[i..] == rest[i - 1..] {}
    }
  }

  /** What the pieces become: literals stay, a bound placeholder's text takes its place. */
  function Filled(pieces: seq<Piece>, vars: Variables): string {
    if pieces == [] then ""
    else
      var first := match pieces[0]
        case Literal(c) => [c]
        case Hole(key) => if key in vars && vars[key] != Null then TextOf(vars[key]) else "${" + key + "}";
      first + Filled(pieces[1..], vars)
  }

  /** The names between the braces, in order. */
  function Names(pieces: seq<Piece>): seq<string> {
    if pieces == [] then []
    else (match pieces[0] case Literal(_) => [] case Hole(key) => [key]) + Names(pieces[1..])
  }

  lemma {:induction false} ReplaceFills(pieces: seq<Piece>, s: string, vars: Variables)
    requires IsCut(pieces, s)
    ensures Replace(s, vars) == Filled(pieces, vars) && Holes(s) == Names(pieces)
    decreases pieces
  {
    hide IsCut;
    if pieces == [] {
      assert s == "" by { NothingSpelled(s); }
    } else {
      RestIsCut(pieces, s);
      ReplaceFills(pieces[1..], Spelled(pieces[1..]), vars);
    }
  }

  lemma NothingSpelled(s: string)
    ensures IsCut([], s) ==> s == ""
  {
  }

  /** A text becomes the bound value itself when it is one placeholder, and otherwise the text
      with its placeholders filled in. */
  ghost predicate BecomesOf(s: string, r: Json, vars: Variables) {
    forall pieces: seq<Piece> :: IsCut(pieces, s) ==>
      if |pieces| == 1 && pieces[0].Hole? then
        var key := pieces[0].key;
        r == if key in vars && vars[key] != Null then vars[key] else Str(s)
      else r == Str(Filled(pieces, vars))
  }

  lemma TextBecomes(s: string, vars: Variables)
    ensures BecomesOf(s, InterpolateText(s, vars), vars)
  {
    hide IsCut, Filled, Replace, TextOf;
    forall pieces: seq<Piece> | IsCut(pieces, s)
      ensures var alone := |pieces| == 1 && pieces[0].Hole?;
        && (alone ==> KeyAt(s) == Some(pieces[0].key) && s == Written(pieces[0].key))
        && (!alone ==> InterpolateText(s, vars) == Str(Filled(pieces, vars)))
    {
      ReplaceFills(pieces, s, vars);
      OnePlaceholder(pieces, s);
    }
  }

  lemma OnePlaceholder(pieces: seq<Piece>, s: string)
    requires IsCut(pieces, s)
    ensures |pieces| == 1 && pieces[0].Hole? ==> KeyAt(s) == Some(pieces[0].key) && s == Written(pieces[0].key)
    ensures !(|pieces| == 1 && pieces[0].Hole?) ==> !(KeyAt(s).Some? && s == Written(KeyAt(s).value))
  {
    if pieces != [] {
      RestIsCut(pieces, s);
      var rest := pieces[1..];
      assert rest != [] ==> Spelled(rest) != "";
    }
  }

  /** The value itself, numbers and lists included, takes the place of a lone placeholder. */
  lemma LonePlaceholder(key: string, vars: Variables)
    requires key != "" && '}' !in key
    ensures Interpolate(Str("${" + key + "}"), vars)
         == if key in vars && vars[key] != Null then vars[key] else Str("${" + key + "}")
  {
    HolesOfPlaceholder(key);
  }

  // ----- The text of a value -----

  /** Parts with a separator between each two. */
  function Joined(parts: seq<string>, separator: string): string {
    if parts == [] then ""
    else if |parts| == 1 then parts[0]
    else Joined(parts[..|parts| - 1], separator) + separator + parts[|parts| - 1]
  }

  lemma {:induction false} JoinedCons(first: string, rest: seq<string>, separator: string)
    requires rest != []
    ensures Joined([first] + rest, separator) == first + separator + Joined(rest, separator)
  {
    var all, n := [first] + rest, |rest| - 1;
    assert all[..|all| - 1] == [first] + rest[..n];
    if n > 0 {
      JoinedCons(first, rest[..n], separator);
    }
  }

  /** What a value is as text, kind by kind. */
  lemma TextByKind(v: Json, parts: seq<string>)
    ensures v == Null ==> TextOf(v) == "null"
    ensures v == Bool(true) ==> TextOf(v) == "true"
    ensures v == Bool(false) ==> TextOf(v) == "false"
    ensures v.Num? ==> TextOf(v) == v.digits
    ensures v.Str? ==> TextOf(v) == v.text
    ensures v.Obj? ==> TextOf(v) == "[object Object]"
    ensures v.Arr? && |parts| == |v.items|
            && (forall i :: 0 <= i < |parts| ==> parts[i] == if v.items[i] == Null then "" else TextOf(v.items[i]))
            ==> TextOf(v) == Joined(parts, ",")
  {
    if v.Arr? && |parts| == |v.items|
       && forall i :: 0 <= i < |parts| ==> parts[i] == if v.items[i] == Null then "" else TextOf(v.items[i]) {
      ListText(v.items, parts);
    }
  }

  lemma {:induction false} ListText(items: seq<Json>, parts: seq<string>)
    requires |parts| == |items|
    requires forall i :: 0 <= i < |parts| ==> parts[i] == if items[i] == Null then "" else TextOf(items[i])
    ensures JoinTexts(items) == Joined(parts, ",")
  {
    hide TextOf;
    if |items| > 1 {
      ListText(items[1..], parts[1..]);
      JoinedCons(parts[0], parts[1..], ",");
      NextText(items);
      hide Joined, JoinTexts;
      assert parts == [parts[0]] + parts[1..];
    }
  }

  lemma NextText(items: seq<Json>)
    requires |items| > 1
    ensures JoinTexts(items) == (if items[0] == Null then "" else TextOf(items[0])) + "," + JoinTexts(items[1..])
  {
    hide TextOf;
  }

  // ----- Trees -----

  /** The part of a tree that these child positions lead to. */
  function Part(v: Json, path: seq<nat>): Option<Json>
    decreases path
  {
    if path == [] then Some(v)
    else if v.Arr? && path[0] < |v.items| then Part(v.items[path[0]], path[1..])
    else if v.Obj? && path[0] < |v.members| then Part(v.members[path[0]].value, path[1..])
    else None
  }

  /** Texts become what they should; lists and objects stay, with as many items and the same
      keys in the same order; anything else is unchanged. */
  ghost predicate Becomes(v: Json, r: Json, vars: Variables) {
    match v
    case Str(text) => BecomesOf(text, r, vars)
    case Arr(items) => r.Arr? && |r.items| == |items|
    case Obj(members) =>
      r.Obj? && |r.members| == |members| && forall i :: 0 <= i < |members| ==> r.members[i].key == members[i].key
    case _ => r == v
  }

  lemma {:induction false} ItemsInterpolated(items: seq<Json>, vars: Variables)
    ensures var r := InterpolateItems(items, vars);
      |r| == |items| && forall i :: 0 <= i < |items| ==> r[i] == Interpolate(items[i], vars)
  {
    hide Interpolate;
    if items != [] { ItemsInterpolated(items[1..], vars); }
  }

  lemma {:induction false} MembersInterpolated(members: seq<Member>, vars: Variables)
    ensures var r := InterpolateMembers(members, vars);
      |r| == |members| && forall i :: 0 <= i < |members| ==>
                            r[i].key == members[i].key && r[i].value == Interpolate(members[i].value, vars)
  {
    hide Interpolate;
    if members != [] { MembersInterpolated(members[1..], vars); }
  }

  /** Every part of a tree becomes what it should, where it was. */
  lemma {:induction false} PartBecomes(v: Json, path: seq<nat>, vars: Variables)
    requires Part(v, path).Some?
    ensures Part(Interpolate(v, vars), path).Some?
    ensures Becomes(Part(v, path).value, Part(Interpolate(v, vars), path).value, vars)
    decreases path
  {
    hide BecomesOf, InterpolateText;
    match v {
      case Str(text) => TextBecomes(text, vars);
      case Arr(items) =>
        ItemsInterpolated(items, vars);
        if path != [] { PartBecomes(items[path[0]], path[1..], vars); }
      case Obj(members) =>
        MembersInterpolated(members, vars);
        if path != [] { PartBecomes(members[path[0]].value, path[1..], vars); }
      case _ =>
    }
  }

  // ----- The manifest that is loaded -----

  /** What a name stands for: the platform's own first, then an override, then what the
      manifest says last. */
  function Meaning(key: string, own: seq<Member>, overrides: Variables, windows: bool): Option<Json> {
    if key == "platform.gradleWrapper" then Some(Str(if windows then "gradlew.bat" else "./gradlew"))
    else if key == "platform.npm" then Some(Str(if windows then "npm.cmd" else "npm"))
    else if key in overrides then Some(overrides[key])
    else LastOf(own, key)
  }

  function LastOf(own: seq<Member>, key: string): (v: Option<Json>)
    ensures v.Some? ==> exists i :: 0 <= i < |own| && own[i] == Member(key, v.value)
                                    && forall j :: i < j < |own| ==> own[j].key != key
    ensures v.None? ==> forall m :: m in own ==> m.key != key
  {
    if own == [] then None
    else if own[|own| - 1].key == key then
      assert own[|own| - 1] == Member(key, own[|own| - 1].value);
      Some(own[|own| - 1].value)
    else LastOf(own[..|own| - 1], key)
  }

  /** The variables the loader uses bind every name to its meaning. */
  lemma VariablesMean(key: string, own: seq<Member>, overrides: Variables, windows: bool)
    ensures var vars := LoadVariables(own, overrides, windows);
      Meaning(key, own, overrides, windows) == if key in vars then Some(vars[key]) else None
  {
    OwnMean(own, key);
  }

  lemma {:induction false} OwnMean(own: seq<Member>, key: string)
    ensures LastOf(own, key) == if key in VariablesOf(own) then Some(VariablesOf(own)[key]) else None
  {
    if own != [] { OwnMean(own[..|own| - 1], key); }
  }

  /** A manifest that loads comes back with every part become what it should, each name
      standing for its meaning. */
  lemma LoadedParts(manifest: Json, overrides: Variables, windows: bool, path: seq<nat>, meanings: Variables)
    requires Part(manifest, path).Some?
    requires forall key :: Meaning(key, OwnMembers(manifest), overrides, windows)
                        == if key in meanings then Some(meanings[key]) else None
    ensures var loaded := LoadPortfolio(manifest, LoadVariables(OwnMembers(manifest), overrides, windows));
      loaded.Ok? ==>
        && Part(loaded.value, path).Some?
        && Becomes(Part(manifest, path).value, Part(loaded.value, path).value, meanings)
  {
    hide Part, Becomes, Interpolate, Meaning, OwnMembers, LoadVariables;
    var vars := LoadVariables(OwnMembers(manifest), overrides, windows);
    forall key ensures (key in vars <==> key in meanings) && (key in vars ==> vars[key] == meanings[key]) {
      VariablesMean(key, OwnMembers(manifest), overrides, windows);
    }
    assert vars == meanings;
    PartBecomes(manifest, path, vars);
  }
}
