/**
  ${name} placeholders in strings and in JSON trees: substitution, and the search
  for placeholders that were left over.
 */
module Interpolation {
  import opened Wrappers

  // ----- The placeholder scanner: \$\{([^}]+)} -----

  /** The part of s before its first closing brace, if it has one. */
  function UpToBrace(s: string): (r: Option<string>)
    ensures r.Some? ==> |r.value| < |s|
  {
    if s == "" then None
    else if s[0] == '}' then Some("")
    else
      var rest := UpToBrace(s[1..]);
      if rest.None? then None else Some([s[0]] + rest.value)
  }

  /** The key of a placeholder that starts at the first character. */
  function KeyAt(s: string): (r: Option<string>)
    ensures r.Some? ==> r.value != "" && |Written(r.value)| <= |s|
  {
    if |s| < 2 || s[0] != '$' || s[1] != '{' then None
    else
      var key := UpToBrace(s[2..]);
      if key == Some("") then None else key
  }

  function Written(key: string): string { "${" + key + "}" }

  lemma {:induction false} UpToBraceExact(s: string, key: string)
    ensures UpToBrace(s) == Some(key) <==> '}' !in key && key + "}" <= s
    ensures UpToBrace(s) == None <==> '}' !in s
  {
    if s != "" && s[0] != '}' {
      UpToBraceExact(s[1..], if key == "" then "" else key[1..]);
      if key != "" {
        assert key == [key[0]] + key[1..];
        if key + "}" <= s { assert key[0] == s[0] && key[1..] + "}" <= s[1..]; }
        if key[0] == s[0] && key[1..] + "}" <= s[1..] {
          assert key + "}" == [s[0]] + (key[1..] + "}") && s == [s[0]] + s[1..];
        }
      }
    } else if s != "" {
      if key != "" { assert (key + "}")[0] == key[0]; }
    }
  }

  lemma KeyAtExact(s: string, key: string)
    ensures KeyAt(s) == Some(key) <==> key != "" && '}' !in key && Written(key) <= s
  {
    if |s| >= 2 {
      UpToBraceExact(s[2..], key);
      assert Written(key)[2..] == key + "}" && Written(key)[0] == '$' && Written(key)[1] == '{';
      if s[0] == '$' && s[1] == '{' {
        assert s == "${" + s[2..];
        assert key + "}" <= s[2..] <==> Written(key) <= s;
      }
    }
  }

  /** The placeholders of a string, left to right. */
  function Holes(s: string): seq<string>
    decreases |s|
  {
    if s == "" then []
    else if KeyAt(s).Some? then [KeyAt(s).value] + Holes(s[|Written(KeyAt(s).value)|..])
    else Holes(s[1..])
  }

  // ----- Values -----

  datatype Json =
    | Null
    | Bool(flag: bool)
    | Num(digits: string)
    | Str(text: string)
    | Arr(items: seq<Json>)
    | Obj(members: seq<Member>)
  datatype Member = Member(key: string, value: Json)

  type Variables = map<string, Json>

  predicate Primitive(v: Json) { !v.Arr? && !v.Obj? }

  /** String(value): a list is its elements' texts joined by commas, a null one empty. */
  function TextOf(v: Json): string
    decreases v, 0
  {
    match v
    case Null => "null"
    case Bool(flag) => if flag then "true" else "false"
    case Num(digits) => digits
    case Str(text) => text
    case Arr(items) => JoinTexts(items)
    case Obj(_) => "[object Object]"
  }

  function JoinTexts(items: seq<Json>): string
    decreases items, 0
  {
    if items == [] then ""
    else ElementText(items[0]) + if |items| == 1 then "" else "," + JoinTexts(items[1..])
  }

  function ElementText(v: Json): string
    decreases v, 1
  {
    if v == Null then "" else TextOf(v)
  }

  predicate Bound(key: string, vars: Variables) { key in vars && vars[key] != Null }

  /** What can stand between the braces of a placeholder. */
  predicate IsKey(key: string) { key != "" && '}' !in key }

  /** String.replace with every placeholder's text. */
  function Replace(s: string, vars: Variables): string
    decreases |s|
  {
    if s == "" then ""
    else if KeyAt(s).Some? then
      var key := KeyAt(s).value;
      (if Bound(key, vars) then TextOf(vars[key]) else Written(key)) + Replace(s[|Written(key)|..], vars)
    else [s[0]] + Replace(s[1..], vars)
  }

  function InterpolateText(s: string, vars: Variables): Json {
    if KeyAt(s).Some? && s == Written(KeyAt(s).value) then
      if Bound(KeyAt(s).value, vars) then vars[KeyAt(s).value] else Str(s)
    else Str(Replace(s, vars))
  }

  function Interpolate(v: Json, vars: Variables): Json {
    match v
    case Str(text) => InterpolateText(text, vars)
    case Arr(items) => Arr(InterpolateItems(items, vars))
    case Obj(members) => Obj(InterpolateMembers(members, vars))
    case _ => v
  }

  function InterpolateItems(items: seq<Json>, vars: Variables): seq<Json> {
    if items == [] then [] else [Interpolate(items[0], vars)] + InterpolateItems(items[1..], vars)
  }

  function InterpolateMembers(members: seq<Member>, vars: Variables): seq<Member> {
    if members == [] then [] else [InterpolateMember(members[0], vars)] + InterpolateMembers(members[1..], vars)
  }

  function InterpolateMember(m: Member, vars: Variables): Member { Member(m.key, Interpolate(m.value, vars)) }

  function Unresolved(v: Json): seq<string> {
    match v
    case Str(text) => Holes(text)
    case Arr(items) => UnresolvedItems(items)
    case Obj(members) => UnresolvedMembers(members)
    case _ => []
  }

  function UnresolvedItems(items: seq<Json>): seq<string> {
    if items == [] then [] else Unresolved(items[0]) + UnresolvedItems(items[1..])
  }

  function UnresolvedMembers(members: seq<Member>): seq<string> {
    if members == [] then [] else UnresolvedMember(members[0]) + UnresolvedMembers(members[1..])
  }

  function UnresolvedMember(m: Member): seq<string> { Unresolved(m.value) }

  // ----- Which texts are inert -----

  /** At i no placeholder starts, whatever follows the text: a dollar sign is followed
      by something other than an opening brace, or by an empty pair of braces. */
  predicate DollarInert(t: string, i: nat)
    requires i < |t|
  {
    t[i] == '$' ==> i + 1 < |t| && (t[i + 1] == '{' ==> i + 2 < |t| && t[i + 2] == '}')
  }

  /** A text that takes part in no placeholder, whatever its neighbours: it is not empty,
      a leading opening brace is closed at once, and every dollar sign is inert. */
  predicate Inert(t: string) {
    && t != "" && (t[0] == '{' ==> |t| >= 2 && t[1] == '}')
    && forall i :: 0 <= i < |t| ==> DollarInert(t, i)
  }

  /** A value that brings no placeholder along, neither as a text nor as a whole. */
  predicate InertValue(v: Json) { Inert(TextOf(v)) && Unresolved(v) == [] }

  /** The bindings used by these keys. */
  predicate InertTextsFor(keys: seq<string>, vars: Variables) {
    forall k :: k in keys && Bound(k, vars) ==> Inert(TextOf(vars[k]))
  }

  predicate InertFor(keys: seq<string>, vars: Variables) {
    forall k :: k in keys && Bound(k, vars) ==> InertValue(vars[k])
  }

  predicate PrimitiveFor(keys: seq<string>, vars: Variables) {
    forall k :: k in keys && Bound(k, vars) ==> Primitive(vars[k])
  }

  /** All bindings that a placeholder can use. */
  ghost predicate InertTexts(vars: Variables) {
    forall k :: IsKey(k) && Bound(k, vars) ==> Inert(TextOf(vars[k]))
  }

  ghost predicate InertVariables(vars: Variables) {
    forall k :: IsKey(k) && Bound(k, vars) ==> InertValue(vars[k])
  }

  function Unbound(keys: seq<string>, vars: Variables): seq<string> {
    if keys == [] then []
    else (if Bound(keys[0], vars) then [] else [keys[0]]) + Unbound(keys[1..], vars)
  }

  lemma {:induction false} UnboundOfConcat(a: seq<string>, b: seq<string>, vars: Variables)
    ensures Unbound(a + b, vars) == Unbound(a, vars) + Unbound(b, vars)
  {
    if a == [] {
      assert a + b == b;
    } else {
      assert (a + b)[1..] == a[1..] + b;
      UnboundOfConcat(a[1..], b, vars);
    }
  }

  // ----- Strings -----

  lemma {:induction false} InertHasNoHoles(t: string, tail: string, i: nat)
    requires i <= |t| && forall j :: i <= j < |t| ==> DollarInert(t, j)
    ensures Holes(t[i..] + tail) == Holes(tail)
    decreases |t| - i
  {
    var s := t[i..] + tail;
    if i == |t| {
      assert s == tail;
    } else {
      assert s[0] == t[i] && s[1..] == t[i + 1..] + tail;
      assert DollarInert(t, i);
      if t[i] == '$' {
        assert s[1] == t[i + 1];
        if t[i + 1] == '{' { assert s[2] == t[i + 2] == '}'; }
      }
      InertHasNoHoles(t, tail, i + 1);
    }
  }

  lemma HolesOfWritten(key: string, tail: string)
    requires key != "" && '}' !in key
    ensures KeyAt(Written(key) + tail) == Some(key)
    ensures Holes(Written(key) + tail) == [key] + Holes(tail)
  {
    KeyAtExact(Written(key) + tail, key);
    assert (Written(key) + tail)[|Written(key)|..] == tail;
  }

  /** A string without a closing brace has no placeholders. */
  lemma {:induction false} NoBraceNoHoles(s: string, vars: Variables)
    requires '}' !in s
    ensures Replace(s, vars) == s && Holes(s) == []
    decreases |s|
  {
    if s != "" {
      if |s| >= 2 { UpToBraceExact(s[2..], ""); }
      NoBraceNoHoles(s[1..], vars);
      assert s == [s[0]] + s[1..];
    }
  }

  /** A leading opening brace after substitution was there before, or is closed at once. */
  lemma ReplaceStart(s: string, vars: Variables)
    requires s != "" && InertTextsFor(Holes(s), vars)
    ensures var r := Replace(s, vars);
      && r != ""
      && (r[0] == '{' && s[0] != '{' ==> |r| >= 2 && r[1] == '}')
      && (s[0] == '{' || s[0] == '}' ==> r == [s[0]] + Replace(s[1..], vars))
  {
    if KeyAt(s).Some? && Bound(KeyAt(s).value, vars) {
      assert KeyAt(s).value in Holes(s);
    }
  }

  /** After substitution exactly the unbound placeholders remain, in order: no
      bound one survives and none is created by gluing. */
  lemma {:induction false} HolesAfterReplace(s: string, vars: Variables)
    requires InertTextsFor(Holes(s), vars)
    ensures Holes(Replace(s, vars)) == Unbound(Holes(s), vars)
    decreases |s|
  {
    if s == "" {
    } else if KeyAt(s).Some? {
      var key := KeyAt(s).value;
      KeyAtExact(s, key);
      var tail := s[|Written(key)|..];
      assert Holes(s) == [key] + Holes(tail);
      assert Holes(s)[1..] == Holes(tail);
      HolesAfterReplace(tail, vars);
      if Bound(key, vars) {
        assert key in Holes(s);
        var text := TextOf(vars[key]);
        InertHasNoHoles(text, Replace(tail, vars), 0);
        assert text[0..] == text;
      } else {
        HolesOfWritten(key, Replace(tail, vars));
      }
    } else {
      HolesAfterReplace(s[1..], vars);
      LiteralStaysLiteral(s, vars);
      var r := Replace(s, vars);
      assert r[1..] == Replace(s[1..], vars);
    }
  }

  lemma LiteralStaysLiteral(s: string, vars: Variables)
    requires s != "" && KeyAt(s).None? && InertTextsFor(Holes(s), vars)
    ensures KeyAt(Replace(s, vars)).None?
  {
    var r := Replace(s, vars);
    var r1 := Replace(s[1..], vars);
    assert r == [s[0]] + r1;
    if s[0] == '$' && |s| > 1 {
      assert Holes(s) == Holes(s[1..]);
      ReplaceStart(s[1..], vars);
      if s[1] == '{' {
        assert s[1..][1..] == s[2..];
        assert r[2..] == Replace(s[2..], vars);
        UpToBraceExact(s[2..], "");
        if UpToBrace(s[2..]).None? {
          NoBraceNoHoles(s[2..], vars);
        } else {
          assert s[2] == '}';
          BraceHoles(s[1..]);
          ReplaceStart(s[2..], vars);
          assert r[2] == '}';
        }
      }
    }
  }

  lemma BraceHoles(s: string)
    requires s != "" && s[0] == '{'
    ensures Holes(s) == Holes(s[1..])
  {
  }

  /** Placeholders without a binding are left as they are. */
  lemma {:induction false} ReplaceUnbound(s: string, vars: Variables)
    requires forall k :: k in Holes(s) ==> !Bound(k, vars)
    ensures Replace(s, vars) == s
    decreases |s|
  {
    if s == "" {
    } else if KeyAt(s).Some? {
      var key := KeyAt(s).value;
      KeyAtExact(s, key);
      assert Holes(s)[0] == key;
      var tail := s[|Written(key)|..];
      assert forall k :: k in Holes(tail) ==> k in Holes(s);
      ReplaceUnbound(tail, vars);
      assert s == Written(key) + tail;
    } else {
      ReplaceUnbound(s[1..], vars);
      assert s == [s[0]] + s[1..];
    }
  }

  lemma {:induction false} UnboundAreUnbound(keys: seq<string>, vars: Variables)
    ensures forall k :: k in Unbound(keys, vars) <==> k in keys && !Bound(k, vars)
    ensures Unbound(keys, vars) == [] <==> forall k :: k in keys ==> Bound(k, vars)
  {
    if keys != [] {
      UnboundAreUnbound(keys[1..], vars);
      assert keys[0] in keys;
      assert forall k :: k in keys <==> k == keys[0] || k in keys[1..];
    }
  }

  lemma TextExactly(s: string, vars: Variables)
    requires InertFor(Holes(s), vars)
    ensures Unresolved(InterpolateText(s, vars)) == Unbound(Holes(s), vars)
    ensures PrimitiveFor(Holes(s), vars) ==> Primitive(InterpolateText(s, vars))
  {
    if KeyAt(s).Some? && s == Written(KeyAt(s).value) {
      KeyAtExact(s, KeyAt(s).value);
      HolesOfPlaceholder(KeyAt(s).value);
    } else {
      HolesAfterReplace(s, vars);
    }
  }

  lemma HolesOfPlaceholder(key: string)
    requires IsKey(key)
    ensures KeyAt(Written(key)) == Some(key) && Holes(Written(key)) == [key]
  {
    HolesOfWritten(key, "");
    assert Written(key) + "" == Written(key);
  }

  lemma {:induction false} HolesAreKeys(s: string)
    ensures forall k :: k in Holes(s) ==> IsKey(k)
    decreases |s|
  {
    if s != "" {
      if KeyAt(s).Some? {
        KeyAtExact(s, KeyAt(s).value);
        HolesAreKeys(s[|Written(KeyAt(s).value)|..]);
      } else {
        HolesAreKeys(s[1..]);
      }
    }
  }

  // ----- Which texts create placeholders -----

  lemma {:induction false} NoDollarNoHoles(s: string, vars: Variables)
    requires '$' !in s
    ensures Replace(s, vars) == s && Holes(s) == []
    decreases |s|
  {
    if s != "" {
      NoDollarNoHoles(s[1..], vars);
      assert s == [s[0]] + s[1..];
    }
  }

  lemma ReplaceHole(key: string, tail: string, vars: Variables)
    requires IsKey(key) && Bound(key, vars)
    ensures Replace(Written(key) + tail, vars) == TextOf(vars[key]) + Replace(tail, vars)
  {
    HolesOfWritten(key, tail);
    assert (Written(key) + tail)[|Written(key)|..] == tail;
  }

  lemma LiteralDollar(rest: string, vars: Variables)
    requires rest != "" && rest[0] != '{'
    ensures Holes("$" + rest) == Holes(rest) && Replace("$" + rest, vars) == "$" + Replace(rest, vars)
  {
    assert ("$" + rest)[1..] == rest;
  }

  /** Where a placeholder is written, the scanner finds one, that or an earlier one. */
  lemma {:induction false} HoleSomewhere(s: string, i: nat)
    requires i < |s| && KeyAt(s[i..]).Some?
    ensures Holes(s) != []
  {
    if i > 0 && KeyAt(s).None? {
      assert s[1..][i - 1..] == s[i..];
      HoleSomewhere(s[1..], i - 1);
    } else {
      assert s[0..] == s;
    }
  }

  /** An empty text joins its neighbours. */
  lemma EmptyTextCreatesPlaceholder(key: string, name: string, vars: Variables)
    requires key != "" && '}' !in key && name != "" && '}' !in name && '$' !in name
    requires Bound(key, vars) && TextOf(vars[key]) == ""
    ensures var s := "$" + Written(key) + "{" + name + "}";
      Holes(s) == [key] && Holes(Replace(s, vars)) == [name]
  {
    hide Holes, Replace;
    var tail := "{" + name + "}";
    LiteralDollar(Written(key) + tail, vars);
    assert "$" + Written(key) + "{" + name + "}" == "$" + (Written(key) + tail);
    NoDollarNoHoles(tail, vars);
    HolesOfWritten(key, tail);
    ReplaceHole(key, tail, vars);
    assert "" + tail == tail && "$" + tail == Written(name);
    HolesOfPlaceholder(name);
  }

  /** A text that starts with an opening brace completes a dollar sign before it. */
  lemma BraceTextCreatesPlaceholder(key: string, name: string, vars: Variables)
    requires IsKey(key) && Bound(key, vars) && IsKey(name) && '$' !in name
    requires var t := TextOf(vars[key]); t != "" && t[0] == '{' && !(|t| >= 2 && t[1] == '}')
    ensures var s := "$" + Written(key) + name + "}";
      Holes(s) == [key] && Holes(Replace(s, vars)) != []
  {
    hide Holes, Replace;
    var t, tail := TextOf(vars[key]), name + "}";
    LiteralDollar(Written(key) + tail, vars);
    assert "$" + Written(key) + name + "}" == "$" + (Written(key) + tail);
    NoDollarNoHoles(tail, vars);
    HolesOfWritten(key, tail);
    ReplaceHole(key, tail, vars);
    var r := "$" + (t + tail);
    assert r[0..] == r && r[2..] == t[1..] + tail && '}' in r[2..];
    UpToBraceExact(r[2..], "");
    HoleSomewhere(r, 0);
  }

  /** A dollar sign in a text, last or before a brace that is not closed at once, starts
      a placeholder with a literal {name} behind the text; the placeholder is ${name} if
      the dollar sign is the last character and the only one. */
  lemma DollarTextCreatesPlaceholder(key: string, name: string, i: nat, vars: Variables)
    requires key != "" && '}' !in key && name != "" && '}' !in name && '$' !in name
    requires Bound(key, vars) && i < |TextOf(vars[key])| && !DollarInert(TextOf(vars[key]), i)
    ensures var s := Written(key) + "{" + name + "}";
      && Holes(s) == [key] && Holes(Replace(s, vars)) != []
      && (var t := TextOf(vars[key]); '$' !in t[..|t| - 1] ==>
            i == |t| - 1 && Holes(Replace(s, vars)) == [name])
  {
    hide Holes, Replace;
    var t, tail := TextOf(vars[key]), "{" + name + "}";
    assert Written(key) + "{" + name + "}" == Written(key) + tail;
    NoDollarNoHoles(tail, vars);
    HolesOfWritten(key, tail);
    ReplaceHole(key, tail, vars);
    DollarStarts(t, name, i);
    HoleSomewhere(t + tail, i);
    if '$' !in t[..|t| - 1] {
      assert t[i] in t[..i + 1] && t[..|t| - 1] <= t;
      LastDollar(t, name);
    }
  }

  lemma DollarStarts(t: string, name: string, i: nat)
    requires IsKey(name) && i < |t| && !DollarInert(t, i)
    ensures KeyAt((t + ("{" + name + "}"))[i..]).Some?
  {
    var r := (t + ("{" + name + "}"))[i..];
    assert r[0] == '$' && r[1] == '{';
    var rest := if i + 1 == |t| then name + "}" else t[i + 2..] + ("{" + name + "}");
    assert r[2..] == rest && rest[|rest| - 1] == '}';
    UpToBraceExact(rest, "");
    assert rest[0] == if i + 1 == |t| then name[0] else if i + 2 == |t| then '{' else t[i + 2];
  }

  lemma LastDollar(t: string, name: string)
    requires IsKey(name) && t != "" && t[|t| - 1] == '$' && '$' !in t[..|t| - 1]
    ensures Holes(t + ("{" + name + "}")) == [name]
  {
    var init := t[..|t| - 1];
    assert t + ("{" + name + "}") == init[0..] + Written(name);
    InertHasNoHoles(init, Written(name), 0);
    HolesOfPlaceholder(name);
  }

  /** A text that is not inert spoils a template whose only placeholder is bound. */
  lemma SpoiledTemplate(key: string, vars: Variables) returns (s: string)
    requires IsKey(key) && Bound(key, vars) && !Inert(TextOf(vars[key]))
    ensures Holes(s) == [key] && Holes(Replace(s, vars)) != [] && s != Written(key)
  {
    hide Holes, Replace;
    var t := TextOf(vars[key]);
    if t == "" {
      EmptyTextCreatesPlaceholder(key, "x", vars);
      s := "$" + Written(key) + "{x}";
      assert s == "$" + Written(key) + "{" + "x" + "}";
    } else if t[0] == '{' && !(|t| >= 2 && t[1] == '}') {
      BraceTextCreatesPlaceholder(key, "x", vars);
      s := "$" + Written(key) + "x}";
      assert s == "$" + Written(key) + "x" + "}";
    } else {
      var i: nat :| i < |t| && !DollarInert(t, i);
      DollarTextCreatesPlaceholder(key, "x", i, vars);
      s := Written(key) + "{x}";
      assert s == Written(key) + "{" + "x" + "}";
    }
    assert |s| > |Written(key)|;
  }

  /** Substitution leaves exactly the unbound placeholders of every text if and only if
      every text that can be inserted is inert. */
  lemma TextsExactIff(vars: Variables)
    ensures (forall s :: Holes(Replace(s, vars)) == Unbound(Holes(s), vars)) <==> InertTexts(vars)
  {
    hide Holes, Replace, Inert, TextOf;
    if InertTexts(vars) {
      forall s ensures Holes(Replace(s, vars)) == Unbound(Holes(s), vars) {
        HolesAreKeys(s);
        HolesAfterReplace(s, vars);
      }
    } else {
      var key :| IsKey(key) && Bound(key, vars) && !Inert(TextOf(vars[key]));
      var s := SpoiledTemplate(key, vars);
      UnboundAreUnbound([key], vars);
    }
  }

  // ----- Trees -----

  /** Same arrays, same objects with the same keys; only string leaves may change,
      and only into other leaves. */
  predicate SameShape(v: Json, r: Json) {
    match v
    case Str(_) => Primitive(r)
    case Arr(items) => r.Arr? && SameItems(items, r.items)
    case Obj(members) => r.Obj? && SameMembers(members, r.members)
    case _ => r == v
  }

  predicate SameItems(items: seq<Json>, others: seq<Json>) {
    |items| == |others| && (items != [] ==> SameShape(items[0], others[0]) && SameItems(items[1..], others[1..]))
  }

  predicate SameMembers(members: seq<Member>, others: seq<Member>) {
    && |members| == |others|
    && (members != [] ==> SameMember(members[0], others[0]) && SameMembers(members[1..], others[1..]))
  }

  predicate SameMember(m: Member, other: Member) { m.key == other.key && SameShape(m.value, other.value) }

  /** With inert bindings, interpolation leaves exactly the unbound placeholders, and
      doing it twice changes nothing more; with primitive ones it also keeps the tree's
      shape and keys. */
  lemma InterpolationExact(v: Json, vars: Variables)
    requires InertFor(Unresolved(v), vars)
    ensures var r := Interpolate(v, vars);
      && Unresolved(r) == Unbound(Unresolved(v), vars) && Interpolate(r, vars) == r
      && (PrimitiveFor(Unresolved(v), vars) ==> SameShape(v, r))
  {
    TreeExact(v, vars);
    UnboundAreUnbound(Unresolved(v), vars);
    UnboundNoChange(Interpolate(v, vars), vars);
  }

  lemma {:induction false} TreeExact(v: Json, vars: Variables)
    requires InertFor(Unresolved(v), vars)
    ensures Unresolved(Interpolate(v, vars)) == Unbound(Unresolved(v), vars)
    ensures PrimitiveFor(Unresolved(v), vars) ==> SameShape(v, Interpolate(v, vars))
    decreases v, 1
  {
    match v {
      case Str(text) => TextExactly(text, vars);
      case Arr(items) => ItemsExact(items, vars);
      case Obj(members) => MembersExact(members, vars);
      case _ =>
    }
  }

  lemma {:induction false} ItemsExact(items: seq<Json>, vars: Variables)
    requires InertFor(UnresolvedItems(items), vars)
    ensures UnresolvedItems(InterpolateItems(items, vars)) == Unbound(UnresolvedItems(items), vars)
    ensures PrimitiveFor(UnresolvedItems(items), vars) ==> SameItems(items, InterpolateItems(items, vars))
    decreases items, 0
  {
    if items != [] {
      TreeExact(items[0], vars);
      ItemsExact(items[1..], vars);
      UnboundOfConcat(Unresolved(items[0]), UnresolvedItems(items[1..]), vars);
      assert InterpolateItems(items, vars)[1..] == InterpolateItems(items[1..], vars);
    }
  }

  lemma {:induction false} MembersExact(members: seq<Member>, vars: Variables)
    requires InertFor(UnresolvedMembers(members), vars)
    ensures UnresolvedMembers(InterpolateMembers(members, vars)) == Unbound(UnresolvedMembers(members), vars)
    ensures PrimitiveFor(UnresolvedMembers(members), vars) ==> SameMembers(members, InterpolateMembers(members, vars))
    decreases members, 0
  {
    if members != [] {
      var m := members[0];
      assert UnresolvedMembers(members) == Unresolved(m.value) + UnresolvedMembers(members[1..]);
      TreeExact(m.value, vars);
      MembersExact(members[1..], vars);
      UnboundOfConcat(UnresolvedMember(m), UnresolvedMembers(members[1..]), vars);
      assert InterpolateMembers(members, vars)[1..] == InterpolateMembers(members[1..], vars);
    }
  }

  /** A tree that names no bound variable is left as it is. */
  lemma {:induction false} UnboundNoChange(v: Json, vars: Variables)
    requires forall k :: k in Unresolved(v) ==> !Bound(k, vars)
    ensures Interpolate(v, vars) == v
    decreases v, 1
  {
    match v {
      case Str(text) =>
        ReplaceUnbound(text, vars);
        if KeyAt(text).Some? { assert Holes(text)[0] == KeyAt(text).value; }
      case Arr(items) => UnboundItems(items, vars);
      case Obj(members) => UnboundMembers(members, vars);
      case _ =>
    }
  }

  lemma {:induction false} UnboundItems(items: seq<Json>, vars: Variables)
    requires forall k :: k in UnresolvedItems(items) ==> !Bound(k, vars)
    ensures InterpolateItems(items, vars) == items
    decreases items, 0
  {
    if items != [] {
      UnboundNoChange(items[0], vars);
      UnboundItems(items[1..], vars);
    }
  }

  lemma {:induction false} UnboundMembers(members: seq<Member>, vars: Variables)
    requires forall k :: k in UnresolvedMembers(members) ==> !Bound(k, vars)
    ensures InterpolateMembers(members, vars) == members
    decreases members, 0
  {
    if members != [] {
      var m := members[0];
      assert UnresolvedMembers(members) == Unresolved(m.value) + UnresolvedMembers(members[1..]);
      UnboundNoChange(m.value, vars);
      assert InterpolateMember(m, vars) == m;
      UnboundMembers(members[1..], vars);
    }
  }

  /** No bindings, no change. */
  lemma NoBindingsNoChange(v: Json, vars: Variables)
    requires forall k :: k in vars ==> vars[k] == Null
    ensures Interpolate(v, vars) == v
  {
    UnboundNoChange(v, vars);
  }

  lemma {:induction false} UnresolvedAreKeys(v: Json)
    ensures forall k :: k in Unresolved(v) ==> IsKey(k)
    decreases v, 1
  {
    match v {
      case Str(text) => HolesAreKeys(text);
      case Arr(items) => ItemKeys(items);
      case Obj(members) => MemberKeys(members);
      case _ =>
    }
  }

  lemma {:induction false} ItemKeys(items: seq<Json>)
    ensures forall k :: k in UnresolvedItems(items) ==> IsKey(k)
    decreases items, 0
  {
    if items != [] {
      UnresolvedAreKeys(items[0]);
      ItemKeys(items[1..]);
    }
  }

  lemma {:induction false} MemberKeys(members: seq<Member>)
    ensures forall k :: k in UnresolvedMembers(members) ==> IsKey(k)
    decreases members, 0
  {
    if members != [] {
      UnresolvedAreKeys(members[0].value);
      MemberKeys(members[1..]);
    }
  }

  /** A binding that is not inert spoils a tree that names nothing else. */
  lemma SpoiledTree(key: string, vars: Variables) returns (v: Json)
    requires IsKey(key) && Bound(key, vars) && !InertValue(vars[key])
    ensures v.Str? && v.text != "" && Unresolved(v) == [key] && Unresolved(Interpolate(v, vars)) != []
  {
    if Inert(TextOf(vars[key])) {
      HolesOfPlaceholder(key);
      v := Str(Written(key));
    } else {
      var s := SpoiledTemplate(key, vars);
      v := Str(s);
      if KeyAt(s).Some? && s == Written(KeyAt(s).value) {
        KeyAtExact(s, KeyAt(s).value);
        HolesOfPlaceholder(KeyAt(s).value);
      }
    }
  }

  /** Interpolation leaves exactly the unbound placeholders of every tree if and only if
      every binding that a placeholder can use is inert. */
  lemma TreesExactIff(vars: Variables)
    ensures (forall v :: Unresolved(Interpolate(v, vars)) == Unbound(Unresolved(v), vars)) <==> InertVariables(vars)
  {
    hide Unresolved, Interpolate, InertValue;
    if InertVariables(vars) {
      forall v ensures Unresolved(Interpolate(v, vars)) == Unbound(Unresolved(v), vars) {
        UnresolvedAreKeys(v);
        TreeExact(v, vars);
      }
    } else {
      var key :| IsKey(key) && Bound(key, vars) && !InertValue(vars[key]);
      var v := SpoiledTree(key, vars);
      UnboundAreUnbound([key], vars);
    }
  }

  // ----- Loading a portfolio manifest -----

  function PlatformVariables(windows: bool): Variables {
    map["platform.gradleWrapper" := Str(if windows then "gradlew.bat" else "./gradlew"),
        "platform.npm" := Str(if windows then "npm.cmd" else "npm")]
  }

  function AllVariables(own: Variables, overrides: Variables, windows: bool): Variables {
    own + overrides + PlatformVariables(windows)
  }

  /** Substitute, then reject what still names a variable. */
  function LoadPortfolio(manifest: Json, vars: Variables): Result<Json, seq<string>> {
    var resolved := Interpolate(manifest, vars);
    if Unresolved(resolved) != [] then Err(Unresolved(resolved)) else Ok(resolved)
  }

  /** It loads when it names only bound variables; otherwise the error names exactly
      the unbound ones. */
  ghost predicate LoadsExactly(manifest: Json, vars: Variables) {
    var loaded := LoadPortfolio(manifest, vars);
    && (loaded.Ok? <==> forall k :: k in Unresolved(manifest) ==> Bound(k, vars))
    && (loaded.Err? ==> forall k :: k in loaded.error <==> k in Unresolved(manifest) && !Bound(k, vars))
  }

  /** With inert variables a manifest loads exactly, and with primitive ones in its own
      shape. */
  lemma LoadsIffAllBound(manifest: Json, own: Variables, overrides: Variables, windows: bool)
    requires InertFor(Unresolved(manifest), AllVariables(own, overrides, windows))
    ensures var vars := AllVariables(own, overrides, windows);
      var loaded := LoadPortfolio(manifest, vars);
      && LoadsExactly(manifest, vars)
      && (loaded.Ok? ==> Unresolved(loaded.value) == [])
      && (loaded.Ok? && PrimitiveFor(Unresolved(manifest), vars) ==> SameShape(manifest, loaded.value))
  {
    var vars := AllVariables(own, overrides, windows);
    InterpolationExact(manifest, vars);
    UnboundAreUnbound(Unresolved(manifest), vars);
  }

  // ----- Manifests bring their own variables -----

  function Find(members: seq<Member>, key: string): (v: Option<Json>)
    ensures v.Some? ==> Member(key, v.value) in members
  {
    if members == [] then None
    else if members[0].key == key then Some(members[0].value)
    else Find(members[1..], key)
  }

  /** The variables of a manifest; none when it has no such member. */
  function OwnMembers(manifest: Json): seq<Member> {
    if !manifest.Obj? then []
    else
      var variables := Find(manifest.members, "variables");
      if variables.Some? && variables.value.Obj? then variables.value.members else []
  }

  function VariablesOf(members: seq<Member>): Variables {
    if members == [] then map[]
    else VariablesOf(members[..|members| - 1])[members[|members| - 1].key := members[|members| - 1].value]
  }

  predicate PrimitiveRecord(members: seq<Member>) { forall m :: m in members ==> Primitive(m.value) }

  /** Manifests that are not refused before interpolation; the rules for targets are a parameter. */
  predicate Accepted(manifest: Json, targetsValid: Json -> bool) {
    && manifest.Obj?
    && var title, variables := Find(manifest.members, "title"), Find(manifest.members, "variables");
       var targets := Find(manifest.members, "targets");
    && Find(manifest.members, "schemaVersion") == Some(Num("1"))
    && title.Some? && title.value.Str? && title.value.text != ""
    && (variables.Some? ==> variables.value.Obj? && PrimitiveRecord(variables.value.members))
    && targets.Some? && targetsValid(targets.value)
  }

  /** The variables that the loader uses for a manifest with these of its own. */
  function LoadVariables(own: seq<Member>, overrides: Variables, windows: bool): Variables {
    AllVariables(VariablesOf(own), overrides, windows)
  }

  /** Some targets are valid and name no variable. */
  ghost predicate PlainTargets(targetsValid: Json -> bool) {
    exists targets :: targetsValid(targets) && Unresolved(targets) == []
  }

  function ManifestOf(title: string, own: seq<Member>, targets: Json): (manifest: Json)
    ensures manifest.Obj?
  {
    Obj([Member("schemaVersion", Num("1"))]
        + ([Member("title", Str(title))] + ([Member("variables", Obj(own))] + [Member("targets", targets)])))
  }

  lemma {:induction false} MemberNames(members: seq<Member>, m: Member, vars: Variables)
    requires m in members
    ensures forall n :: n in Unresolved(m.value) ==> n in UnresolvedMembers(members)
    ensures forall n :: n in Unresolved(Interpolate(m.value, vars)) ==>
              n in UnresolvedMembers(InterpolateMembers(members, vars))
  {
    hide Unresolved, Interpolate;
    assert InterpolateMembers(members, vars)[1..] == InterpolateMembers(members[1..], vars);
    if m != members[0] { MemberNames(members[1..], m, vars); }
  }

  lemma OwnNames(manifest: Json, vars: Variables)
    ensures forall n :: n in UnresolvedMembers(OwnMembers(manifest)) ==> n in Unresolved(manifest)
  {
    if OwnMembers(manifest) != [] {
      MemberNames(manifest.members, Member("variables", Obj(OwnMembers(manifest))), vars);
    }
  }

  lemma Cons(m: Member, rest: seq<Member>, key: string)
    ensures Find([m] + rest, key) == if m.key == key then Some(m.value) else Find(rest, key)
    ensures UnresolvedMembers([m] + rest) == Unresolved(m.value) + UnresolvedMembers(rest)
  {
    assert ([m] + rest)[1..] == rest;
  }

  lemma FindInManifest(title: string, own: seq<Member>, targets: Json, key: string)
    ensures Find(ManifestOf(title, own, targets).members, key)
         == if key == "schemaVersion" then Some(Num("1")) else if key == "title" then Some(Str(title))
            else if key == "variables" then Some(Obj(own)) else if key == "targets" then Some(targets) else None
  {
    var m0, m1 := Member("schemaVersion", Num("1")), Member("title", Str(title));
    var m2, m3 := Member("variables", Obj(own)), Member("targets", targets);
    Cons(m0, [m1] + ([m2] + [m3]), key);
    Cons(m1, [m2] + [m3], key);
    Cons(m2, [m3], key);
  }

  lemma ManifestIsAccepted(title: string, own: seq<Member>, targets: Json, targetsValid: Json -> bool)
    requires title != "" && PrimitiveRecord(own) && targetsValid(targets)
    ensures var manifest := ManifestOf(title, own, targets);
      Accepted(manifest, targetsValid) && OwnMembers(manifest) == own
  {
    hide PrimitiveRecord, Find, ManifestOf;
    assert |"schemaVersion"| == 13 && |"title"| == 5 && |"variables"| == 9 && |"targets"| == 7;
    assert ManifestOf(title, own, targets).Obj?;
    FindInManifest(title, own, targets, "schemaVersion");
    FindInManifest(title, own, targets, "title");
    FindInManifest(title, own, targets, "variables");
    FindInManifest(title, own, targets, "targets");
  }

  lemma ManifestNames(title: string, own: seq<Member>, targets: Json)
    requires Unresolved(targets) == []
    ensures Unresolved(ManifestOf(title, own, targets)) == Holes(title) + UnresolvedMembers(own)
  {
    var m0, m1 := Member("schemaVersion", Num("1")), Member("title", Str(title));
    var m2, m3 := Member("variables", Obj(own)), Member("targets", targets);
    Cons(m0, [m1] + ([m2] + [m3]), "");
    Cons(m1, [m2] + [m3], "");
    Cons(m2, [m3], "");
    Cons(m3, [], "");
    hide Holes, UnresolvedMembers;
    assert [m3] + [] == [m3];
    assert UnresolvedMembers([]) == [] by { NoMembers(); }
  }

  lemma NoMembers()
    ensures UnresolvedMembers([]) == []
  {
  }

  lemma TitleNames(title: string, own: seq<Member>, targets: Json, vars: Variables)
    ensures forall n :: n in Unresolved(Interpolate(Str(title), vars)) ==>
              n in Unresolved(Interpolate(ManifestOf(title, own, targets), vars))
  {
    var members := ManifestOf(title, own, targets).members;
    assert members[1] == Member("title", Str(title));
    MemberNames(members, members[1], vars);
  }

  // ----- Whether a manifest loads -----

  /** Where a placeholder has no binding, its written form is still there. */
  lemma {:induction false} UnboundIsWritten(s: string, name: string, vars: Variables) returns (i: nat)
    requires name in Holes(s) && !Bound(name, vars)
    ensures i < |Replace(s, vars)| && KeyAt(Replace(s, vars)[i..]).Some?
    decreases |s|
  {
    if KeyAt(s).Some? {
      var key := KeyAt(s).value;
      KeyAtExact(s, key);
      var text := if Bound(key, vars) then TextOf(vars[key]) else Written(key);
      var rest := Replace(s[|Written(key)|..], vars);
      if name == key {
        i := 0;
        HolesOfWritten(key, rest);
        assert (text + rest)[0..] == text + rest;
      } else {
        var j := UnboundIsWritten(s[|Written(key)|..], name, vars);
        i := |text| + j;
        assert (text + rest)[i..] == rest[j..];
      }
    } else {
      var j := UnboundIsWritten(s[1..], name, vars);
      i := j + 1;
      assert Replace(s, vars)[i..] == Replace(s[1..], vars)[j..];
    }
  }

  /** An unbound name in a tree leaves some placeholder, whatever the bindings. */
  lemma {:induction false} UnboundLeavesSome(v: Json, name: string, vars: Variables)
    requires name in Unresolved(v) && !Bound(name, vars)
    ensures Unresolved(Interpolate(v, vars)) != []
    decreases v, 1
  {
    match v {
      case Str(s) =>
        if KeyAt(s).Some? && s == Written(KeyAt(s).value) {
          KeyAtExact(s, KeyAt(s).value);
          HolesOfPlaceholder(KeyAt(s).value);
        } else {
          var i := UnboundIsWritten(s, name, vars);
          HoleSomewhere(Replace(s, vars), i);
        }
      case Arr(items) => UnboundInItems(items, name, vars);
      case Obj(members) => UnboundInMembers(members, name, vars);
    }
  }

  lemma {:induction false} UnboundInItems(items: seq<Json>, name: string, vars: Variables)
    requires name in UnresolvedItems(items) && !Bound(name, vars)
    ensures UnresolvedItems(InterpolateItems(items, vars)) != []
    decreases items, 0
  {
    assert InterpolateItems(items, vars)[1..] == InterpolateItems(items[1..], vars);
    if name in Unresolved(items[0]) { UnboundLeavesSome(items[0], name, vars); }
    else { UnboundInItems(items[1..], name, vars); }
  }

  lemma {:induction false} UnboundInMembers(members: seq<Member>, name: string, vars: Variables)
    requires name in UnresolvedMembers(members) && !Bound(name, vars)
    ensures UnresolvedMembers(InterpolateMembers(members, vars)) != []
    decreases members, 0
  {
    var m := members[0];
    assert InterpolateMembers(members, vars)[1..] == InterpolateMembers(members[1..], vars);
    if name in Unresolved(m.value) { UnboundLeavesSome(m.value, name, vars); }
    else { UnboundInMembers(members[1..], name, vars); }
  }

  ghost predicate LoadsWhenBound(manifest: Json, vars: Variables) {
    LoadPortfolio(manifest, vars).Ok? <==> forall k :: k in Unresolved(manifest) ==> Bound(k, vars)
  }

  /** Every accepted manifest with these variables loads exactly when it names only bound
      ones, if and only if the variables are inert, or name an unbound one themselves: then
      none of these manifests can load, and none does. */
  lemma LoadingExactIff(own: seq<Member>, overrides: Variables, windows: bool, targetsValid: Json -> bool)
    requires PrimitiveRecord(own) && PlainTargets(targetsValid)
    ensures var vars := LoadVariables(own, overrides, windows);
      (forall manifest :: Accepted(manifest, targetsValid) && OwnMembers(manifest) == own ==>
         LoadsWhenBound(manifest, vars))
      <==> InertVariables(vars) || exists n :: n in UnresolvedMembers(own) && !Bound(n, vars)
  {
    hide Unresolved, Interpolate, InertValue, LoadVariables, Accepted, OwnMembers, ManifestOf, PrimitiveRecord;
    var vars := LoadVariables(own, overrides, windows);
    if exists n :: n in UnresolvedMembers(own) && !Bound(n, vars) {
      var n :| n in UnresolvedMembers(own) && !Bound(n, vars);
      forall manifest | OwnMembers(manifest) == own ensures LoadsWhenBound(manifest, vars) {
        OwnNames(manifest, vars);
        UnboundLeavesSome(manifest, n, vars);
      }
    } else if InertVariables(vars) {
      forall manifest ensures LoadsWhenBound(manifest, vars) {
        UnresolvedAreKeys(manifest);
        TreeExact(manifest, vars);
        UnboundAreUnbound(Unresolved(manifest), vars);
      }
    } else {
      var key :| IsKey(key) && Bound(key, vars) && !InertValue(vars[key]);
      var manifest := SpoiledManifest(key, own, vars, targetsValid);
      assert !LoadsWhenBound(manifest, vars);
    }
  }

  /** An accepted manifest that names only bound variables, and does not load. */
  lemma SpoiledManifest(key: string, own: seq<Member>, vars: Variables, targetsValid: Json -> bool)
    returns (manifest: Json)
    requires IsKey(key) && Bound(key, vars) && !InertValue(vars[key])
    requires PrimitiveRecord(own) && PlainTargets(targetsValid)
    ensures Accepted(manifest, targetsValid) && OwnMembers(manifest) == own
    ensures Unresolved(manifest) == [key] + UnresolvedMembers(own)
    ensures Unresolved(Interpolate(manifest, vars)) != []
  {
    var title := SpoiledTree(key, vars);
    var targets :| targetsValid(targets) && Unresolved(targets) == [];
    manifest := ManifestOf(title.text, own, targets);
    ManifestIsAccepted(title.text, own, targets, targetsValid);
    ManifestNames(title.text, own, targets);
    TitleNames(title.text, own, targets, vars);
    var left := Unresolved(Interpolate(title, vars));
    assert left[0] in left;
  }

  // ----- Which names the error lists -----

  /** The end of the text is part of a placeholder that is not closed yet. */
  predicate Open(t: string)
    decreases |t|
  {
    t != "" &&
    if KeyAt(t).Some? then Open(t[|Written(KeyAt(t).value)|..])
    else || (t[0] == '$' && (|t| == 1 || (t[1] == '{' && UpToBrace(t[2..]).None?)))
         || Open(t[1..])
  }

  /** What a closed text contributes does not depend on what follows it. */
  lemma {:induction false} ClosedConcat(t: string, tail: string)
    requires !Open(t)
    ensures Holes(t + tail) == Holes(t) + Holes(tail)
    decreases |t|
  {
    if t == "" {
      assert t + tail == tail;
    } else if KeyAt(t).Some? {
      var key := KeyAt(t).value;
      KeyAtExact(t, key);
      KeyAtExact(t + tail, key);
      assert (t + tail)[|Written(key)|..] == t[|Written(key)|..] + tail;
      ClosedConcat(t[|Written(key)|..], tail);
    } else {
      if t[0] == '$' && t[1] == '{' { assert t[2] == '}' && (t + tail)[2..][0] == '}'; }
      assert (t + tail)[1..] == t[1..] + tail;
      ClosedConcat(t[1..], tail);
    }
  }

  lemma OpenAtOnce(t: string, name: string) returns (h: string)
    requires t != "" && t[0] == '$' && (|t| == 1 || (t[1] == '{' && UpToBrace(t[2..]).None?))
    requires IsKey(name)
    ensures h in Holes(t + ("{" + name + "}")) && |h| >= |name|
  {
    hide Holes;
    if |t| == 1 {
      h := name;
    } else {
      UpToBraceExact(t[2..], "");
      h := t[2..] + ("{" + name);
      assert t == "${" + t[2..];
    }
    assert t + ("{" + name + "}") == Written(h);
    HolesOfPlaceholder(h);
  }

  /** An open text swallows the start of a literal {name} and makes a name at least as long. */
  lemma {:induction false} OpenLeaks(t: string, name: string) returns (h: string)
    requires Open(t) && IsKey(name)
    ensures h in Holes(t + ("{" + name + "}")) && |h| >= |name|
    decreases |t|
  {
    var tail := "{" + name + "}";
    var s := t + tail;
    if KeyAt(t).Some? {
      var key := KeyAt(t).value;
      KeyAtExact(t, key);
      KeyAtExact(s, key);
      assert s[|Written(key)|..] == t[|Written(key)|..] + tail;
      h := OpenLeaks(t[|Written(key)|..], name);
    } else if t[0] == '$' && (|t| == 1 || (t[1] == '{' && UpToBrace(t[2..]).None?)) {
      h := OpenAtOnce(t, name);
    } else {
      if t[0] == '$' && t[1] == '{' { assert t[2] == '}' && s[2..][0] == '}'; }
      assert s[1..] == t[1..] + tail;
      h := OpenLeaks(t[1..], name);
    }
  }

  /** Closed, and naming nothing outside the list. */
  predicate Harmless(t: string, names: seq<string>) {
    !Open(t) && forall h :: h in Holes(t) ==> h in names
  }

  /** A value that brings no other name along: not as a text, not behind a dollar sign, and
      not as a whole. */
  predicate HarmlessValue(v: Json, names: seq<string>) {
    && Harmless(TextOf(v), names) && Harmless("$" + TextOf(v), names)
    && forall h :: h in Unresolved(v) ==> h in names
  }

  ghost predicate HarmlessVariables(vars: Variables, names: seq<string>) {
    forall k :: IsKey(k) && Bound(k, vars) ==> HarmlessValue(vars[k], names)
  }

  /** Nothing is lost, and nothing is added but these names. */
  predicate SameNames(before: seq<string>, after: seq<string>, names: seq<string>) {
    && (forall n :: n in before ==> n in after)
    && (forall n :: n in after ==> n in before || n in names)
  }

  lemma {:induction false} TextNames(s: string, vars: Variables, names: seq<string>)
    requires HarmlessVariables(vars, names)
    ensures SameNames(Unbound(Holes(s), vars), Holes(Replace(s, vars)), names)
    decreases |s|
  {
    if s != "" {
      if KeyAt(s).Some? {
        var key := KeyAt(s).value;
        KeyAtExact(s, key);
        var tail := s[|Written(key)|..];
        assert Holes(s)[1..] == Holes(tail);
        TextNames(tail, vars, names);
        if Bound(key, vars) {
          ClosedConcat(TextOf(vars[key]), Replace(tail, vars));
        } else {
          HolesOfWritten(key, Replace(tail, vars));
        }
      } else if s[0] == '$' && s[1..] != "" && KeyAt(s[1..]).Some? && Bound(KeyAt(s[1..]).value, vars) {
        var key := KeyAt(s[1..]).value;
        KeyAtExact(s[1..], key);
        var tail := s[1..][|Written(key)|..];
        TextNames(tail, vars, names);
        DollarBeforeText(key, tail, vars, names);
        assert s == "$" + (Written(key) + tail);
      } else {
        TextNames(s[1..], vars, names);
        LiteralKept(s, vars);
        assert Replace(s, vars)[1..] == Replace(s[1..], vars);
      }
    }
  }

  lemma DollarBeforeText(key: string, tail: string, vars: Variables, names: seq<string>)
    requires IsKey(key) && Bound(key, vars) && HarmlessValue(vars[key], names)
    requires SameNames(Unbound(Holes(tail), vars), Holes(Replace(tail, vars)), names)
    ensures var s := "$" + (Written(key) + tail);
      SameNames(Unbound(Holes(s), vars), Holes(Replace(s, vars)), names)
  {
    hide Holes, Replace, Open, TextOf, SameNames, Unbound, Unresolved;
    var text := TextOf(vars[key]);
    HolesOfWritten(key, tail);
    ReplaceHole(key, tail, vars);
    LiteralDollar(Written(key) + tail, vars);
    BoundFirst(key, Holes(tail), vars);
    assert "$" + (text + Replace(tail, vars)) == ("$" + text) + Replace(tail, vars);
    ClosedConcat("$" + text, Replace(tail, vars));
    MoreNames(Unbound(Holes(tail), vars), Holes("$" + text), Holes(Replace(tail, vars)), names);
  }

  lemma BoundFirst(key: string, keys: seq<string>, vars: Variables)
    requires Bound(key, vars)
    ensures Unbound([key] + keys, vars) == Unbound(keys, vars)
  {
    assert ([key] + keys)[1..] == keys;
  }

  lemma MoreNames(before: seq<string>, extra: seq<string>, after: seq<string>, names: seq<string>)
    requires SameNames(before, after, names) && forall n :: n in extra ==> n in names
    ensures SameNames(before, extra + after, names)
  {
  }

  /** Any other literal character stays literal. */
  lemma LiteralKept(s: string, vars: Variables)
    requires s != "" && KeyAt(s).None?
    requires s[0] == '$' && s[1..] != "" && KeyAt(s[1..]).Some? ==> !Bound(KeyAt(s[1..]).value, vars)
    ensures KeyAt(Replace(s, vars)).None?
  {
    var r := Replace(s, vars);
    if s[0] == '$' && |s| > 1 {
      assert r[1..] == Replace(s[1..], vars);
      if s[1] == '{' {
        assert s[1..][1..] == s[2..];
        assert r[2..] == Replace(s[2..], vars);
        UpToBraceExact(s[2..], "");
        if UpToBrace(s[2..]).None? {
          NoBraceNoHoles(s[2..], vars);
        } else {
          assert s[2] == '}' && r[2] == '}';
        }
      }
    }
  }

  lemma {:induction false} TreeNames(v: Json, vars: Variables, names: seq<string>)
    requires HarmlessVariables(vars, names)
    ensures SameNames(Unbound(Unresolved(v), vars), Unresolved(Interpolate(v, vars)), names)
    decreases v, 1
  {
    match v {
      case Str(s) =>
        if KeyAt(s).Some? && s == Written(KeyAt(s).value) {
          KeyAtExact(s, KeyAt(s).value);
          HolesOfPlaceholder(KeyAt(s).value);
        } else {
          TextNames(s, vars, names);
        }
      case Arr(items) => ItemsNames(items, vars, names);
      case Obj(members) => MembersNames(members, vars, names);
      case _ =>
    }
  }

  lemma {:induction false} ItemsNames(items: seq<Json>, vars: Variables, names: seq<string>)
    requires HarmlessVariables(vars, names)
    ensures SameNames(Unbound(UnresolvedItems(items), vars), UnresolvedItems(InterpolateItems(items, vars)), names)
    decreases items, 0
  {
    if items != [] {
      TreeNames(items[0], vars, names);
      ItemsNames(items[1..], vars, names);
      UnboundOfConcat(Unresolved(items[0]), UnresolvedItems(items[1..]), vars);
      assert InterpolateItems(items, vars)[1..] == InterpolateItems(items[1..], vars);
    }
  }

  lemma {:induction false} MembersNames(members: seq<Member>, vars: Variables, names: seq<string>)
    requires HarmlessVariables(vars, names)
    ensures SameNames(Unbound(UnresolvedMembers(members), vars),
                      UnresolvedMembers(InterpolateMembers(members, vars)), names)
    decreases members, 0
  {
    if members != [] {
      var m := members[0];
      assert UnresolvedMembers(members) == Unresolved(m.value) + UnresolvedMembers(members[1..]);
      TreeNames(m.value, vars, names);
      MembersNames(members[1..], vars, names);
      UnboundOfConcat(UnresolvedMember(m), UnresolvedMembers(members[1..]), vars);
      assert InterpolateMembers(members, vars)[1..] == InterpolateMembers(members[1..], vars);
    }
  }

  /** A name longer than all of these. */
  function LongName(names: seq<string>): (name: string)
    ensures IsKey(name) && '$' !in name && forall n :: n in names ==> |n| < |name|
  {
    if names == [] then "x"
    else
      var rest := LongName(names[1..]);
      assert forall n :: n in names ==> n == names[0] || n in names[1..];
      rest + seq(|names[0]|, _ => 'x')
  }

  /** A value that is not harmless leaks a name through a text with one placeholder. */
  lemma LeakyTemplate(key: string, vars: Variables, names: seq<string>) returns (s: string, h: string)
    requires IsKey(key) && Bound(key, vars) && !HarmlessValue(vars[key], names)
    ensures s != "" && Holes(s) == [key]
    ensures h in Unresolved(Interpolate(Str(s), vars)) && h !in names
  {
    if h' :| h' in Unresolved(vars[key]) && h' !in names {
      HolesOfPlaceholder(key);
      s, h := Written(key), h';
    } else {
      s, h := LeakyText(key, vars, names);
      if KeyAt(s).Some? { assert Holes(s)[0] == KeyAt(s).value; }
    }
  }

  lemma LeakyText(key: string, vars: Variables, names: seq<string>) returns (s: string, h: string)
    requires IsKey(key) && Bound(key, vars)
    requires !Harmless(TextOf(vars[key]), names) || !Harmless("$" + TextOf(vars[key]), names)
    ensures s != "" && s != Written(key) && Holes(s) == [key]
    ensures h in Holes(Replace(s, vars)) && h !in names
  {
    hide Holes, Replace, TextOf, Harmless;
    var text, name := TextOf(vars[key]), LongName(names);
    var tail := "{" + name + "}";
    NoDollarNoHoles(tail, vars);
    HolesOfWritten(key, tail);
    ReplaceHole(key, tail, vars);
    if !Harmless(text, names) {
      s := Written(key) + tail;
      h := Leak(text, name, names);
    } else {
      LiteralDollar(Written(key) + tail, vars);
      s := "$" + (Written(key) + tail);
      h := Leak("$" + text, name, names);
      assert "$" + (text + tail) == ("$" + text) + tail;
    }
    assert |s| > |Written(key)|;
  }

  lemma Leak(t: string, name: string, names: seq<string>) returns (h: string)
    requires !Harmless(t, names) && IsKey(name) && forall n :: n in names ==> |n| < |name|
    ensures h in Holes(t + ("{" + name + "}")) && h !in names
  {
    if Open(t) {
      h := OpenLeaks(t, name);
    } else {
      h :| h in Holes(t) && h !in names;
      ClosedConcat(t, "{" + name + "}");
    }
  }

  /** The names in these variables that nothing binds: they are unbound in every manifest
      that carries the variables. */
  function OwnUnbound(own: seq<Member>, vars: Variables): seq<string> { Unbound(UnresolvedMembers(own), vars) }

  /** For every accepted manifest with these variables the outcome is right and the error
      lists exactly the unbound names, if and only if the variables bring along no other
      names than those. */
  lemma ErrorsExactIff(own: seq<Member>, overrides: Variables, windows: bool, targetsValid: Json -> bool)
    requires PrimitiveRecord(own) && PlainTargets(targetsValid)
    ensures var vars := LoadVariables(own, overrides, windows);
      (forall manifest :: Accepted(manifest, targetsValid) && OwnMembers(manifest) == own ==>
         LoadsExactly(manifest, vars))
      <==> HarmlessVariables(vars, OwnUnbound(own, vars))
  {
    hide Unresolved, Interpolate, HarmlessValue, LoadVariables, Accepted, OwnMembers, ManifestOf, PrimitiveRecord;
    var vars := LoadVariables(own, overrides, windows);
    var names := OwnUnbound(own, vars);
    UnboundAreUnbound(UnresolvedMembers(own), vars);
    if HarmlessVariables(vars, names) {
      forall manifest | OwnMembers(manifest) == own ensures LoadsExactly(manifest, vars) {
        TreeNames(manifest, vars, names);
        OwnNames(manifest, vars);
        UnboundAreUnbound(Unresolved(manifest), vars);
        NamesLoad(manifest, vars);
      }
    } else {
      var key :| IsKey(key) && Bound(key, vars) && !HarmlessValue(vars[key], names);
      var manifest := LeakyManifest(key, own, vars, targetsValid);
      assert !LoadsExactly(manifest, vars);
    }
  }

  lemma NamesLoad(manifest: Json, vars: Variables)
    requires forall n :: n in Unresolved(Interpolate(manifest, vars)) <==> n in Unresolved(manifest) && !Bound(n, vars)
    ensures LoadsExactly(manifest, vars)
  {
    var left := Unresolved(Interpolate(manifest, vars));
    if left != [] { assert left[0] in left; }
  }

  lemma LeakedName(manifest: Json, vars: Variables, h: string)
    requires h in Unresolved(Interpolate(manifest, vars)) && !(h in Unresolved(manifest) && !Bound(h, vars))
    ensures !LoadsExactly(manifest, vars)
  {
  }

  lemma LeakyManifest(key: string, own: seq<Member>, vars: Variables, targetsValid: Json -> bool)
    returns (manifest: Json)
    requires IsKey(key) && Bound(key, vars) && !HarmlessValue(vars[key], OwnUnbound(own, vars))
    requires PrimitiveRecord(own) && PlainTargets(targetsValid)
    ensures Accepted(manifest, targetsValid) && OwnMembers(manifest) == own && !LoadsExactly(manifest, vars)
  {
    hide HarmlessValue, Interpolate, Accepted, ManifestOf, OwnMembers, PrimitiveRecord, LoadsExactly;
    var title, h := LeakyTemplate(key, vars, OwnUnbound(own, vars));
    var targets :| targetsValid(targets) && Unresolved(targets) == [];
    manifest := ManifestOf(title, own, targets);
    ManifestIsAccepted(title, own, targets, targetsValid);
    ManifestNames(title, own, targets);
    TitleNames(title, own, targets, vars);
    UnboundAreUnbound(UnresolvedMembers(own), vars);
    LeakedName(manifest, vars, h);
  }
}
