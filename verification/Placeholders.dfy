/** Placeholders in template values (internal/workspace/configuration.go): finding
    them, substituting them in one pass, and which accepted values resolve. */
module Placeholders {
  import opened Domain

  const MAX_RESOLVED: nat := 8192

  predicate IsNameChar(c: char) {
    ('a' <= c <= 'z') || ('0' <= c <= '9') || c == '_' || c == '.' || c == '-'
  }

  predicate ValidName(name: string) {
    name != "" && 'a' <= name[0] <= 'z' && forall i :: 0 <= i < |name| ==> IsNameChar(name[i])
  }

  /** Length of the longest prefix of name characters. */
  function NameRun(s: string): (n: nat)
    ensures n <= |s| && (forall i :: 0 <= i < n ==> IsNameChar(s[i])) && (n < |s| ==> !IsNameChar(s[n]))
  {
    if s == "" || !IsNameChar(s[0]) then 0 else 1 + NameRun(s[1..])
  }

  /** A match of the placeholder pattern begins here. */
  predicate StartsSlot(s: string) {
    && |s| >= 4 && s[0] == '{' && s[1] == '{' && 'a' <= s[2] <= 'z'
    && var n := NameRun(s[2..]); |s| >= n + 4 && s[n + 2] == '}' && s[n + 3] == '}'
  }

  datatype Piece = Text(c: char) | Slot(name: string)

  /** The leftmost matches, left to right, and the text between them. */
  function Parse(s: string): seq<Piece> {
    if s == "" then []
    else if StartsSlot(s) then
      var n := NameRun(s[2..]);
      [Slot(s[2..n + 2])] + Parse(s[n + 4..])
    else [Text(s[0])] + Parse(s[1..])
  }

  function PieceText(p: Piece): string {
    if p.Text? then [p.c] else "{{" + p.name + "}}"
  }

  function Render(pieces: seq<Piece>): string {
    if pieces == [] then "" else PieceText(pieces[0]) + Render(pieces[1..])
  }

  function Slots(pieces: seq<Piece>): seq<string> {
    if pieces == [] then []
    else (if pieces[0].Slot? then [pieces[0].name] else []) + Slots(pieces[1..])
  }

  function PieceValue(p: Piece, values: map<string, string>): string {
    if p.Slot? && p.name in values then values[p.name] else PieceText(p)
  }

  function Substituted(pieces: seq<Piece>, values: map<string, string>): string {
    if pieces == [] then "" else PieceValue(pieces[0], values) + Substituted(pieces[1..], values)
  }

  predicate HasControl(s: string) {
    exists i :: 0 <= i < |s| && (s[i] < ' ' || s[i] as int == 0x7f)
  }

  predicate AllIn(names: seq<string>, values: map<string, string>) {
    forall i :: 0 <= i < |names| ==> names[i] in values
  }

  function ResolveSpec(value: string, values: map<string, string>): Option<string> {
    var resolved := Substituted(Parse(value), values);
    if !AllIn(Slots(Parse(resolved)), values) || HasControl(resolved) || |resolved| > MAX_RESOLVED then None else Some(resolved)
  }

  lemma Cons(p: Piece, rest: seq<Piece>, values: map<string, string>)
    ensures Render([p] + rest) == PieceText(p) + Render(rest)
    ensures Substituted([p] + rest, values) == PieceValue(p, values) + Substituted(rest, values)
    ensures Slots([p] + rest) == (if p.Slot? then [p.name] else []) + Slots(rest)
  {
  }

  // ---------------------------------------------------------------------
  // The loops

  /** What the scan finds at position `i` and where it goes on. */
  lemma ScanAt(value: string, i: nat) returns (found: seq<string>, next: nat)
    requires i < |value|
    ensures i < next <= |value|
    ensures if StartsSlot(value[i..]) then
              var n := NameRun(value[i..][2..]); next == i + n + 4 && found == [value[i..][2..n + 2]]
            else next == i + 1 && found == []
    ensures Slots(Parse(value[i..])) == found + Slots(Parse(value[next..]))
  {
    var s := value[i..];
    if StartsSlot(s) {
      var n := NameRun(s[2..]);
      next, found := i + n + 4, [s[2..n + 2]];
      assert s[n + 4..] == value[next..];
      Cons(Slot(s[2..n + 2]), Parse(value[next..]), map[]);
    } else {
      next, found := i + 1, [];
      assert s[1..] == value[next..];
      Cons(Text(value[i]), Parse(value[next..]), map[]);
    }
  }

  method FindPlaceholders(value: string) returns (names: seq<string>)
    ensures names == Slots(Parse(value))
  {
    names := [];
    var i: nat := 0;
    ghost var all := Slots(Parse(value));
    assert value[0..] == value;
    while i < |value|
      invariant i <= |value| && all == names + Slots(Parse(value[i..]))
    {
      ghost var found, next := ScanAt(value, i);
      NamesAssociate(names, found, Slots(Parse(value[next..])));
      if StartsSlot(value[i..]) {
        var n := NameRun(value[i..][2..]);
        names := names + [value[i..][2..n + 2]];
        i := i + n + 4;
      } else {
        i := i + 1;
      }
      assert i == next;
    }
    assert value[i..] == "";
  }

  lemma NamesAssociate(a: seq<string>, b: seq<string>, c: seq<string>)
    ensures a + (b + c) == a + b + c && a + [] == a
  {
  }

  /** What the pass does at position `i`: the text to append and where it goes on. */
  lemma PassAt(value: string, i: nat, values: map<string, string>) returns (text: string, next: nat)
    requires i < |value|
    ensures i < next <= |value|
    ensures if StartsSlot(value[i..]) then
              var n := NameRun(value[i..][2..]);
              next == i + n + 4 && text == PieceValue(Slot(value[i..][2..n + 2]), values)
            else next == i + 1 && text == [value[i]]
    ensures Substituted(Parse(value[i..]), values) == text + Substituted(Parse(value[next..]), values)
  {
    var s := value[i..];
    if StartsSlot(s) {
      var n := NameRun(s[2..]);
      next, text := i + n + 4, PieceValue(Slot(s[2..n + 2]), values);
      assert s[n + 4..] == value[next..];
      Cons(Slot(s[2..n + 2]), Parse(value[next..]), values);
    } else {
      next, text := i + 1, [value[i]];
      assert s[1..] == value[next..];
      Cons(Text(value[i]), Parse(value[next..]), values);
    }
  }

  method Substitute(value: string, values: map<string, string>) returns (resolved: string)
    ensures resolved == Substituted(Parse(value), values)
  {
    resolved := "";
    var i: nat := 0;
    ghost var whole := Substituted(Parse(value), values);
    assert value[0..] == value;
    while i < |value|
      invariant i <= |value| && whole == resolved + Substituted(Parse(value[i..]), values)
    {
      ghost var text, next := PassAt(value, i, values);
      ConcatAssociates(resolved, text, Substituted(Parse(value[next..]), values));
      if StartsSlot(value[i..]) {
        var n := NameRun(value[i..][2..]);
        resolved := resolved + PieceValue(Slot(value[i..][2..n + 2]), values);
        i := i + n + 4;
      } else {
        resolved := resolved + [value[i]];
        i := i + 1;
      }
      assert i == next;
    }
    assert value[i..] == "";
  }

  lemma ConcatAssociates(a: string, b: string, c: string)
    ensures a + (b + c) == a + b + c
  {
  }

  method ResolveValue(value: string, values: map<string, string>) returns (r: Option<string>)
    ensures r == ResolveSpec(value, values)
  {
    var resolved := Substitute(value, values);
    var names := FindPlaceholders(resolved);
    for i := 0 to |names|
      invariant forall k :: 0 <= k < i ==> names[k] in values
    {
      if names[i] !in values {
        return None;
      }
    }
    if HasControl(resolved) || |resolved| > MAX_RESOLVED {
      return None;
    }
    return Some(resolved);
  }

  // ---------------------------------------------------------------------
  // Parsing and rendering

  /** Nothing of the value is lost between the matches. */
  lemma {:induction false} RenderParse(s: string)
    ensures Render(Parse(s)) == s
  {
    if s == "" {
    } else if StartsSlot(s) {
      var n := NameRun(s[2..]);
      RenderParse(s[n + 4..]);
      Cons(Slot(s[2..n + 2]), Parse(s[n + 4..]), map[]);
      SlotSpan(s);
    } else {
      RenderParse(s[1..]);
      Cons(Text(s[0]), Parse(s[1..]), map[]);
      assert s == [s[0]] + s[1..];
    }
  }

  lemma SlotSpan(s: string)
    requires StartsSlot(s)
    ensures var n := NameRun(s[2..]); s == PieceText(Slot(s[2..n + 2])) + s[n + 4..]
  {
  }

  lemma {:induction false} NameRunOf(name: string, rest: string)
    requires (forall i :: 0 <= i < |name| ==> IsNameChar(name[i])) && (rest == "" || !IsNameChar(rest[0]))
    ensures NameRun(name + rest) == |name|
  {
    if name == "" {
      assert name + rest == rest;
    } else {
      assert (name + rest)[1..] == name[1..] + rest;
      NameRunOf(name[1..], rest);
    }
  }

  lemma ParseSlotFirst(name: string, rest: string)
    requires ValidName(name)
    ensures Parse("{{" + name + "}}" + rest) == [Slot(name)] + Parse(rest)
  {
    var s := "{{" + name + "}}" + rest;
    assert s[2..] == name + ("}}" + rest);
    NameRunOf(name, "}}" + rest);
    assert s[2..|name| + 2] == name && s[|name| + 4..] == rest;
  }

  predicate NoBraces(s: string) {
    '{' !in s && '}' !in s
  }

  lemma {:induction false} TextHasNoSlots(text: string, rest: string)
    requires NoBraces(text)
    ensures Slots(Parse(text + rest)) == Slots(Parse(rest))
  {
    if text == "" {
      assert text + rest == rest;
    } else {
      var s := text + rest;
      assert text[0] in text && s[0] == text[0];
      assert s[1..] == text[1..] + rest;
      assert forall c :: c in text[1..] ==> c in text;
      TextHasNoSlots(text[1..], rest);
      assert Parse(s) == [Text(s[0])] + Parse(s[1..]);
    }
  }

  lemma {:induction false} SlotNamesValid(s: string)
    ensures NamesValid(Parse(s))
  {
    if s != "" {
      if StartsSlot(s) {
        SlotNamesValid(s[NameRun(s[2..]) + 4..]);
      } else {
        SlotNamesValid(s[1..]);
      }
    }
  }

  /** Every brace of the value belongs to a placeholder. */
  ghost predicate BracesPaired(pieces: seq<Piece>) {
    forall p :: p in pieces && p.Text? ==> p.c != '{' && p.c != '}'
  }

  ghost predicate NamesValid(pieces: seq<Piece>) {
    forall p :: p in pieces && p.Slot? ==> ValidName(p.name)
  }

  ghost predicate PlainValues(values: map<string, string>) {
    forall name :: name in values ==> NoBraces(values[name]) && !HasControl(values[name])
  }

  function Unresolved(names: seq<string>, values: map<string, string>): seq<string> {
    if names == [] then []
    else (if names[0] in values then [] else [names[0]]) + Unresolved(names[1..], values)
  }

  /** What is left after the pass are exactly the unknown names, in order: no
      inserted text is taken for a placeholder and none comes about around it. */
  lemma {:induction false} LeftoversAreUnknown(pieces: seq<Piece>, values: map<string, string>)
    requires BracesPaired(pieces) && NamesValid(pieces) && PlainValues(values)
    ensures Slots(Parse(Substituted(pieces, values))) == Unresolved(Slots(pieces), values)
  {
    if pieces != [] {
      var p, rest := pieces[0], Substituted(pieces[1..], values);
      assert p in pieces && forall q :: q in pieces[1..] ==> q in pieces;
      assert pieces == [p] + pieces[1..];
      Cons(p, pieces[1..], values);
      LeftoversAreUnknown(pieces[1..], values);
      if p.Slot? && p.name !in values {
        ParseSlotFirst(p.name, rest);
        Cons(p, Parse(rest), values);
      } else {
        TextHasNoSlots(PieceValue(p, values), rest);
      }
      if p.Slot? {
        UnresolvedCons(p.name, Slots(pieces[1..]), values);
      } else {
        assert [] + Slots(pieces[1..]) == Slots(pieces[1..]);
      }
    }
  }

  lemma UnresolvedCons(name: string, rest: seq<string>, values: map<string, string>)
    ensures Unresolved([name] + rest, values) == (if name in values then [] else [name]) + Unresolved(rest, values)
  {
  }

  lemma {:induction false} UnresolvedIn(names: seq<string>, values: map<string, string>)
    ensures AllIn(Unresolved(names, values), values) <==> AllIn(names, values)
    ensures AllIn(names, values) ==> Unresolved(names, values) == []
  {
    if names != [] {
      UnresolvedIn(names[1..], values);
      AllInCons(names[0], names[1..], values);
      assert [names[0]] + names[1..] == names;
      if names[0] in values {
        assert [] + Unresolved(names[1..], values) == Unresolved(names[1..], values);
      } else {
        assert Unresolved(names, values)[0] == names[0];
      }
    }
  }

  lemma AllInCons(name: string, rest: seq<string>, values: map<string, string>)
    ensures AllIn([name] + rest, values) <==> name in values && AllIn(rest, values)
  {
    assert ([name] + rest)[0] == name;
    assert forall i :: 0 <= i < |rest| ==> ([name] + rest)[i + 1] == rest[i];
  }

  lemma NoControlConcat(a: string, b: string)
    ensures HasControl(a + b) <==> HasControl(a) || HasControl(b)
  {
    if HasControl(a) {
      var i :| 0 <= i < |a| && (a[i] < ' ' || a[i] as int == 0x7f);
      assert (a + b)[i] == a[i];
    }
    if HasControl(b) {
      var i :| 0 <= i < |b| && (b[i] < ' ' || b[i] as int == 0x7f);
      assert (a + b)[|a| + i] == b[i];
    }
  }

  lemma {:induction false} SubstitutedHasNoControl(pieces: seq<Piece>, values: map<string, string>)
    requires !HasControl(Render(pieces)) && PlainValues(values)
    ensures !HasControl(Substituted(pieces, values))
  {
    if pieces != [] {
      NoControlConcat(PieceText(pieces[0]), Render(pieces[1..]));
      SubstitutedHasNoControl(pieces[1..], values);
      NoControlConcat(PieceValue(pieces[0], values), Substituted(pieces[1..], values));
    }
  }

  /** With paired braces and plain values, a control-free value resolves exactly
      when it names only known placeholders and the result is short enough, and
      then no placeholder is left in it. */
  lemma ResolvesIff(value: string, values: map<string, string>)
    requires BracesPaired(Parse(value)) && PlainValues(values) && !HasControl(value)
    ensures ResolveSpec(value, values).Some? <==>
              AllIn(Slots(Parse(value)), values) && |Substituted(Parse(value), values)| <= MAX_RESOLVED
    ensures ResolveSpec(value, values).Some? ==> Slots(Parse(ResolveSpec(value, values).value)) == []
  {
    RenderParse(value);
    SlotNamesValid(value);
    LeftoversAreUnknown(Parse(value), values);
    UnresolvedIn(Slots(Parse(value)), values);
    SubstitutedHasNoControl(Parse(value), values);
  }

  lemma SlotFirst(name: string, after: string, values: map<string, string>)
    requires ValidName(name) && name in values
    ensures Substituted(Parse("{{" + name + "}}" + after), values) == values[name] + Substituted(Parse(after), values)
  {
    ParseSlotFirst(name, after);
    Cons(Slot(name), Parse(after), values);
  }

  /** One left-to-right pass: what is inserted stands in the result as it is and
      the rest of the value is substituted independently of it. */
  lemma InsertedVerbatim(before: string, name: string, after: string, values: map<string, string>)
    requires NoBraces(before) && ValidName(name) && name in values
    ensures Substituted(Parse(before + ("{{" + name + "}}" + after)), values) == before + (values[name] + Substituted(Parse(after), values))
  {
    TextFirst(before, "{{" + name + "}}" + after, values);
    SlotFirst(name, after, values);
  }

  lemma {:induction false} TextFirst(text: string, rest: string, values: map<string, string>)
    requires NoBraces(text)
    ensures Substituted(Parse(text + rest), values) == text + Substituted(Parse(rest), values)
  {
    if text == "" {
      assert text + rest == rest;
    } else {
      var s := text + rest;
      assert text[0] in text && s[0] == text[0];
      assert s[1..] == text[1..] + rest;
      assert forall c :: c in text[1..] ==> c in text;
      TextFirst(text[1..], rest, values);
      assert Parse(s) == [Text(s[0])] + Parse(s[1..]);
      Cons(Text(s[0]), Parse(s[1..]), values);
      assert text == [text[0]] + text[1..];
      ConcatAssociates([text[0]], text[1..], Substituted(Parse(rest), values));
    }
  }

  /** The values have to be plain: one that itself reads like an unknown
      placeholder makes every value that inserts it fail. */
  lemma PlaceholderInValueFails(name: string, other: string, values: map<string, string>)
    requires ValidName(name) && ValidName(other) && other !in values && name in values
    requires values[name] == "{{" + other + "}}"
    ensures ResolveSpec("{{" + name + "}}", values) == None
  {
    var value := "{{" + name + "}}";
    assert value + "" == value;
    SlotFirst(name, "", values);
    assert values[name] + Substituted(Parse(""), values) == values[name];
    ParseSlotFirst(other, "");
    assert "{{" + other + "}}" + "" == values[name];
    assert Slots(Parse(values[name]))[0] == other;
  }
}
