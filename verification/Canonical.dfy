// The canonical spelling of a JSON payload (internal/ocsf/canonical.go): what
// the chain hash covers of it.

module Canonical {
  import opened Bytes
  import opened Order

  const QUOTE: Byte := 34
  const COMMA: Byte := 44
  const COLON: Byte := 58
  const BACKSLASH: Byte := 92
  const CLOSE_ARRAY: Byte := 93
  const CLOSE_OBJECT: Byte := 125

  // ---------- decoded values ----------

  /** A byte of a spelled number: a digit, sign, point or exponent mark. */
  predicate InNumber(c: Byte) {
    48 <= c <= 57 || c == 43 || c == 45 || c == 46 || c == 101
  }

  /** A float64 stands as its shortest spelling, which no other float64 has. */
  type Spelling = s: Text | s != [] && forall i :: 0 <= i < |s| ==> InNumber(s[i]) witness [48]

  /** What json.Unmarshal makes of a value: members are a map, so neither
      their order nor a repeated key survives. */
  datatype Json =
    | Null
    | Bool(value: bool)
    | Number(spelling: Spelling)
    | String(text: Text)
    | Array(items: seq<Json>)
    | Object(members: map<Text, Json>)

  lemma {:induction false} SamePrefix(a: Bytes, r: Bytes, a': Bytes, r': Bytes)
    requires |a| == |a'| && a + r == a' + r'
    ensures a == a' && r == r'
  {
    assert (a + r)[..|a|] == a && (a' + r')[..|a|] == a';
    assert (a + r)[|a|..] == r && (a' + r')[|a|..] == r';
  }

  // ---------- quoted strings ----------

  /** U+2028 or U+2029, in UTF-8. */
  predicate Separator(s: Bytes) {
    |s| >= 3 && s[0] == 0xE2 && s[1] == 0x80 && (s[2] == 0xA8 || s[2] == 0xA9)
  }

  /** Not a control byte, quote, backslash, less-than, greater-than or ampersand. */
  predicate Safe(c: Byte) {
    c >= 32 && c != QUOTE && c != BACKSLASH && c != 60 && c != 62 && c != 38
  }

  function HexDigit(n: int): (c: Byte)
    requires 0 <= n < 16
  {
    (if n < 10 then 48 + n else 87 + n) as Byte
  }

  function HexValue(c: Byte): int {
    if c < 87 then c as int - 48 else c as int - 87
  }

  /** The letter after the backslash, for the controls that have one. */
  function Letter(c: Byte): Option<Byte> {
    if c == QUOTE || c == BACKSLASH then Some(c)
    else if c == 8 then Some(98)
    else if c == 9 then Some(116)
    else if c == 10 then Some(110)
    else if c == 12 then Some(102)
    else if c == 13 then Some(114)
    else None
  }

  function Control(letter: Byte): Byte {
    if letter == 98 then 8
    else if letter == 116 then 9
    else if letter == 110 then 10
    else if letter == 102 then 12
    else if letter == 114 then 13
    else letter
  }

  /** How many bytes of s are escaped together. */
  function Span(s: Bytes): (n: nat)
    requires s != []
    ensures 1 <= n <= |s|
  {
    if Separator(s) then 3 else 1
  }

  function Escape(s: Bytes): Bytes
    requires s != []
  {
    if Separator(s) then [BACKSLASH, 117, 50, 48, 50, HexDigit(s[2] as int - 160)]
    else if Safe(s[0]) then [s[0]]
    else if Letter(s[0]).Some? then [BACKSLASH, Letter(s[0]).value]
    else [BACKSLASH, 117, 48, 48, HexDigit(s[0] as int / 16), HexDigit(s[0] as int % 16)]
  }

  /** What bytes are spelled as: the escapes of section 7 of RFC 8259 that have a
      letter, and most of the rest as they are. */
  lemma {:induction false} Spelled(c: Byte)
    ensures c >= 32 && c !in {34, 38, 60, 62, 92} ==> Escape([c]) == [c]
    ensures Escape([34]) == [92, 34] && Escape([92]) == [92, 92] && Escape([8]) == [92, 98] && Escape([9]) == [92, 116]
    ensures Escape([10]) == [92, 110] && Escape([12]) == [92, 102] && Escape([13]) == [92, 114]
  {}

  /** In six characters: other controls, the three bytes that HTML gives a
      meaning, and the two separators. */
  lemma {:induction false} SpelledInSix(c: Byte)
    requires c < 8 || c == 11 || 14 <= c < 32 || c == 38 || c == 60 || c == 62
    ensures var high, low := c / 16, c % 16;
      Escape([c]) == [92, 117, 48, 48, 48 + high, if low < 10 then 48 + low else 87 + low]
    ensures Escape([0xE2, 0x80, 0xA8]) == [92, 117, 50, 48, 50, 56]
    ensures Escape([0xE2, 0x80, 0xA9]) == [92, 117, 50, 48, 50, 57]
  {}

  /** The rest of a quoted string from s on, its closing quote, then rest. */
  function EscapedThen(s: Bytes, rest: Bytes): Bytes {
    if s == [] then [QUOTE] + rest else Escape(s) + EscapedThen(s[Span(s)..], rest)
  }

  /** Reads one escape back. */
  function Unescape(s: Bytes): Option<(Bytes, Bytes)> {
    if s == [] || s[0] == QUOTE then None
    else if s[0] != BACKSLASH then Some(([s[0]], s[1..]))
    else if |s| < 2 then None
    else if s[1] != 117 then Some(([Control(s[1])], s[2..]))
    else if |s| < 6 then None
    else
      var n := HexValue(s[5]) + if s[2] == 50 then 160 else 16 * HexValue(s[4]);
      if !(0 <= n < 256) then None
      else if s[2] == 50 then Some(([0xE2, 0x80, n as Byte], s[6..]))
      else Some(([n as Byte], s[6..]))
  }

  lemma {:induction false} UnescapeInverts(s: Bytes, rest: Bytes)
    requires s != []
    ensures Unescape(Escape(s) + rest) == Some((s[..Span(s)], rest))
  {
    var e := Escape(s);
    assert (e + rest)[|e|..] == rest;
    if Separator(s) {
      assert s[..3] == [0xE2, 0x80, s[2]];
    } else {
      assert s[..1] == [s[0]];
    }
  }

  lemma {:induction false} UnescapeThen(s: Bytes, rest: Bytes)
    ensures s == [] ==> Unescape(EscapedThen(s, rest)) == None
    ensures s != [] ==> Unescape(EscapedThen(s, rest)) == Some((s[..Span(s)], EscapedThen(s[Span(s)..], rest)))
  {
    hide Escape, Separator;
    if s != [] { UnescapeInverts(s, EscapedThen(s[Span(s)..], rest)); }
  }

  /** Quoted strings are prefix-free. */
  lemma {:induction false} StringBinds(s: Bytes, r: Bytes, s': Bytes, r': Bytes)
    requires EscapedThen(s, r) == EscapedThen(s', r')
    ensures s == s' && r == r'
  {
    hide Escape, Unescape, Span;
    UnescapeThen(s, r);
    UnescapeThen(s', r');
    if s == [] {
      SamePrefix([QUOTE], r, [QUOTE], r');
    } else {
      StringBinds(s[Span(s)..], r, s'[Span(s')..], r');
      SliceSplits(s, 0, Span(s), |s|);
      SliceSplits(s', 0, Span(s'), |s'|);
    }
  }

  /** One member of an object, up to its value. */
  lemma {:induction false} MemberBinds(before: Bytes, k: Bytes, r: Bytes, k': Bytes, r': Bytes)
    requires before + ([QUOTE] + EscapedThen(k, [COLON] + r)) == before + ([QUOTE] + EscapedThen(k', [COLON] + r'))
    ensures k == k' && r == r'
  {
    hide EscapedThen;
    var x, y := EscapedThen(k, [COLON] + r), EscapedThen(k', [COLON] + r');
    SamePrefix(before, [QUOTE] + x, before, [QUOTE] + y);
    SamePrefix([QUOTE], x, [QUOTE], y);
    StringBinds(k, [COLON] + r, k', [COLON] + r');
    SamePrefix([COLON], r, [COLON], r');
  }

  // ---------- marshalCanonical ----------

  function Separated(i: nat): Bytes {
    if i == 0 then [] else [COMMA]
  }

  /** marshalCanonical(v), followed by rest. */
  function MarshalThen(v: Json, rest: Bytes): Bytes
    decreases v, 1, 0
  {
    match v
    case Null => [110, 117, 108, 108] + rest
    case Bool(true) => [116, 114, 117, 101] + rest
    case Bool(false) => [102, 97, 108, 115, 101] + rest
    case Number(spelling) => spelling + rest
    case String(text) => [QUOTE] + EscapedThen(text, rest)
    case Array(_) => [91] + ItemsThen(v, 0, rest)
    case Object(members) => [123] + MembersThen(v, SortedKeys(members.Keys), 0, rest)
  }

  function ItemsThen(v: Json, i: nat, rest: Bytes): Bytes
    requires v.Array? && i <= |v.items|
    decreases v, 0, |v.items| - i
  {
    if i == |v.items| then [CLOSE_ARRAY] + rest
    else Separated(i) + MarshalThen(v.items[i], ItemsThen(v, i + 1, rest))
  }

  function MembersThen(v: Json, keys: seq<Text>, i: nat, rest: Bytes): Bytes
    requires v.Object? && i <= |keys| && forall k :: k in keys ==> k in v.members
    decreases v, 0, |keys| - i
  {
    if i == |keys| then [CLOSE_OBJECT] + rest
    else
      Separated(i) + ([QUOTE] + EscapedThen(keys[i],
        [COLON] + MarshalThen(v.members[keys[i]], MembersThen(v, keys, i + 1, rest))))
  }

  // ---------- one spelling, one value ----------

  /** What can follow a value: nothing, or the byte that ends it. */
  predicate Delimited(s: Bytes) {
    s == [] || s[0] == COMMA || s[0] == CLOSE_ARRAY || s[0] == CLOSE_OBJECT
  }

  /** The first byte of a value's spelling. */
  function Lead(v: Json): Byte {
    match v
    case Null => 110
    case Bool(b) => if b then 116 else 102
    case Number(spelling) => spelling[0]
    case String(_) => QUOTE
    case Array(_) => 91
    case Object(_) => 123
  }

  lemma {:induction false} LeadIs(v: Json, rest: Bytes)
    ensures MarshalThen(v, rest) != [] && MarshalThen(v, rest)[0] == Lead(v)
    ensures Lead(v) != COMMA && Lead(v) != CLOSE_ARRAY && Lead(v) != CLOSE_OBJECT
  {
    if v.Number? { assert InNumber(v.spelling[0]); }
  }

  lemma {:induction false} NextByte(a: Bytes, r: Bytes, a': Bytes, r': Bytes)
    requires |a| < |a'| && a + r == a' + r'
    ensures r != [] && a'[|a|] == r[0]
  {
    assert (a + r)[|a|] == r[0] && (a' + r')[|a|] == a'[|a|];
  }

  /** The longer of two spellings would go on with a delimiter. */
  lemma {:induction false} NotLonger(s: Spelling, r: Bytes, s': Spelling, r': Bytes)
    requires Delimited(r) && s + r == s' + r'
    ensures |s'| <= |s|
  {
    if |s| < |s'| {
      NextByte(s, r, s', r');
    }
  }

  lemma {:induction false} NumberBinds(s: Spelling, r: Bytes, s': Spelling, r': Bytes)
    requires Delimited(r) && Delimited(r') && s + r == s' + r'
    ensures s == s' && r == r'
  {
    NotLonger(s, r, s', r');
    NotLonger(s', r', s, r);
    SamePrefix(s, r, s', r');
  }

  predicate SameKind(v: Json, w: Json) {
    (v.Null? && w.Null?) || (v.Bool? && w.Bool? && v.value == w.value) || (v.Number? && w.Number?)
    || (v.String? && w.String?) || (v.Array? && w.Array?) || (v.Object? && w.Object?)
  }

  lemma {:induction false} LeadTells(v: Json, w: Json)
    requires Lead(v) == Lead(w)
    ensures SameKind(v, w)
  {
    if v.Number? { assert InNumber(v.spelling[0]); }
    if w.Number? { assert InNumber(w.spelling[0]); }
  }

  lemma {:induction false} ItemsLead(v: Json, i: nat, rest: Bytes)
    requires v.Array? && i <= |v.items|
    ensures ItemsThen(v, i, rest) != [] && (ItemsThen(v, i, rest)[0] == CLOSE_ARRAY <==> i == |v.items|)
    ensures i > 0 ==> Delimited(ItemsThen(v, i, rest))
  {
    if i < |v.items| { LeadIs(v.items[i], ItemsThen(v, i + 1, rest)); }
  }

  lemma {:induction false} MembersLead(v: Json, keys: seq<Text>, i: nat, rest: Bytes)
    requires v.Object? && i <= |keys| && forall k :: k in keys ==> k in v.members
    ensures MembersThen(v, keys, i, rest) != []
    ensures MembersThen(v, keys, i, rest)[0] == CLOSE_OBJECT <==> i == |keys|
    ensures i > 0 ==> Delimited(MembersThen(v, keys, i, rest))
  {}

  /** Spellings are prefix-free, and a value is determined by its own. */
  lemma {:induction false} SpellingBinds(v: Json, r: Bytes, w: Json, s: Bytes)
    requires Delimited(r) && Delimited(s) && MarshalThen(v, r) == MarshalThen(w, s)
    ensures v == w && r == s
    decreases v, 1, 0
  {
    hide Lead, ItemsThen, MembersThen, EscapedThen, SortedKeys, Delimited;
    LeadIs(v, r);
    LeadIs(w, s);
    LeadTells(v, w);
    match v
    case Null => SamePrefix([110, 117, 108, 108], r, [110, 117, 108, 108], s);
    case Bool(true) => SamePrefix([116, 114, 117, 101], r, [116, 114, 117, 101], s);
    case Bool(false) => SamePrefix([102, 97, 108, 115, 101], r, [102, 97, 108, 115, 101], s);
    case Number(spelling) => NumberBinds(spelling, r, w.spelling, s);
    case String(text) =>
      SamePrefix([QUOTE], EscapedThen(text, r), [QUOTE], EscapedThen(w.text, s));
      StringBinds(text, r, w.text, s);
    case Array(items) =>
      SamePrefix([91], ItemsThen(v, 0, r), [91], ItemsThen(w, 0, s));
      ItemsBind(v, 0, r, w, s);
      assert items[0..] == items && w.items[0..] == w.items;
    case Object(members) =>
      var keys, keys' := SortedKeys(members.Keys), SortedKeys(w.members.Keys);
      SamePrefix([123], MembersThen(v, keys, 0, r), [123], MembersThen(w, keys', 0, s));
      MembersBind(v, keys, 0, r, w, keys', s);
      assert keys[0..] == keys && keys'[0..] == keys';
      assert members == w.members;
  }

  lemma {:induction false} ItemsBind(v: Json, i: nat, r: Bytes, w: Json, s: Bytes)
    requires v.Array? && w.Array? && i <= |v.items| && i <= |w.items|
    requires ItemsThen(v, i, r) == ItemsThen(w, i, s)
    ensures v.items[i..] == w.items[i..] && r == s
    decreases v, 0, |v.items| - i
  {
    hide MarshalThen, Delimited, Separated;
    ItemsLead(v, i, r);
    ItemsLead(w, i, s);
    if i == |v.items| {
      SamePrefix([CLOSE_ARRAY], r, [CLOSE_ARRAY], s);
    } else {
      var a, b := ItemsThen(v, i + 1, r), ItemsThen(w, i + 1, s);
      ItemsLead(v, i + 1, r);
      ItemsLead(w, i + 1, s);
      SamePrefix(Separated(i), MarshalThen(v.items[i], a), Separated(i), MarshalThen(w.items[i], b));
      SpellingBinds(v.items[i], a, w.items[i], b);
      ItemsBind(v, i + 1, r, w, s);
      HeadAndTail(v.items[i..]);
      HeadAndTail(w.items[i..]);
    }
  }

  lemma {:induction false} MembersBind(v: Json, keys: seq<Text>, i: nat, r: Bytes, w: Json, keys': seq<Text>, s: Bytes)
    requires v.Object? && w.Object? && i <= |keys| && i <= |keys'|
    requires (forall k :: k in keys ==> k in v.members) && (forall k :: k in keys' ==> k in w.members)
    requires MembersThen(v, keys, i, r) == MembersThen(w, keys', i, s)
    ensures keys[i..] == keys'[i..] && r == s
    ensures forall k :: k in keys[i..] ==> v.members[k] == w.members[k]
    decreases v, 0, |keys| - i
  {
    hide MarshalThen, EscapedThen, Delimited, Separated;
    MembersLead(v, keys, i, r);
    MembersLead(w, keys', i, s);
    if i == |keys| {
      SamePrefix([CLOSE_OBJECT], r, [CLOSE_OBJECT], s);
    } else {
      var k, k' := keys[i], keys'[i];
      var a, b := MembersThen(v, keys, i + 1, r), MembersThen(w, keys', i + 1, s);
      MembersLead(v, keys, i + 1, r);
      MembersLead(w, keys', i + 1, s);
      MemberBinds(Separated(i), k, MarshalThen(v.members[k], a), k', MarshalThen(w.members[k'], b));
      SpellingBinds(v.members[k], a, w.members[k'], b);
      MembersBind(v, keys, i + 1, r, w, keys', s);
      HeadAndTail(keys[i..]);
      HeadAndTail(keys'[i..]);
    }
  }

  // ---------- canonicalJSON ----------

  function Marshal(v: Json): Bytes {
    MarshalThen(v, [])
  }

  /** A value whose spelling fits a Go slice. */
  type Value = v: Json | |Marshal(v)| < TWO63 witness Null

  /** json.Unmarshal into an empty interface: a fixed but unknown function. */
  const UNMARSHAL: Text -> Option<Value>

  function CanonicalJson(raw: Text): Text {
    match UNMARSHAL(raw)
    case None => raw
    case Some(v) => Marshal(v)
  }

  /** One JSON value; a payload that does not decode is compared as it is. */
  predicate SameValue(a: Text, b: Text) {
    match (UNMARSHAL(a), UNMARSHAL(b))
    case (Some(v), Some(w)) => v == w
    case (None, None) => a == b
    case (Some(v), None) => Marshal(v) == b
    case (None, Some(w)) => a == Marshal(w)
  }

  /** Two payloads have one canonical form exactly when they are one value. */
  lemma {:induction false} CanonicalBinds(a: Text, b: Text)
    ensures CanonicalJson(a) == CanonicalJson(b) <==> SameValue(a, b)
  {
    var v, w := UNMARSHAL(a), UNMARSHAL(b);
    if v.Some? && w.Some? && Marshal(v.value) == Marshal(w.value) { SpellingBinds(v.value, [], w.value, []); }
  }
}
