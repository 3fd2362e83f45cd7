/**
 What the decoder of lua_cjson.c makes of a text. The text is followed by a NUL byte, as Lua strings are;
 every function here takes what is left of it.
 */
module JsonParsing {
  import opened Bytes
  import opened JsonValues

  /** The byte at k; behind the text there is the NUL. */
  function At(s: seq<Byte>, k: nat): Byte
  {
    if k < |s| then s[k] else 0
  }

  datatype Option<T> = None | Some(value: T)

  // ----- Unicode escapes

  /** hexdigit2int */
  function HexValue(b: Byte): (n: int)
    ensures -1 <= n < 16
  {
    if 48 <= b <= 57 then b - 48
    else if 97 <= b <= 102 then b - 87
    else if 65 <= b <= 70 then b - 55
    else -1
  }

  /** decode_hex4 */
  function Hex4(s: seq<Byte>, k: nat): (n: int)
    ensures -1 <= n < 0x1_0000
    ensures n >= 0 ==> |s| >= k + 4
  {
    var a, b, c, d := HexValue(At(s, k)), HexValue(At(s, k + 1)), HexValue(At(s, k + 2)), HexValue(At(s, k + 3));
    if a < 0 || b < 0 || c < 0 || d < 0 then -1 else a * 0x1000 + b * 0x100 + c * 0x10 + d
  }

  /** codepoint_to_utf8 */
  function Utf8(c: nat): (u: seq<Byte>)
    ensures |u| <= 4
  {
    if c <= 0x7F then [c]
    else if c <= 0x7FF then [0xC0 + c / 64, 0x80 + c % 64]
    else if c <= 0xFFFF then [0xE0 + c / 4096, 0x80 + (c / 64) % 64, 0x80 + c % 64]
    else if c <= 0x1F_FFFF then
      [0xF0 + c / 0x4_0000, 0x80 + (c / 4096) % 64, 0x80 + (c / 64) % 64, 0x80 + c % 64]
    else []
  }

  predicate IsHigh(c: int)
  {
    0xD800 <= c < 0xDC00
  }

  predicate IsLow(c: int)
  {
    0xDC00 <= c < 0xE000
  }

  /** json_append_unicode_escape on what begins with \u: the bytes it appends, and how far it goes. */
  function UnicodeEscape(s: seq<Byte>): (r: Option<(seq<Byte>, nat)>)
    ensures r.Some? ==> 6 <= r.value.1 <= |s| && 1 <= |r.value.0| <= r.value.1
  {
    var c := Hex4(s, 2);
    if c < 0 then None
    else if IsHigh(c) || IsLow(c) then
      if IsLow(c) then None
      else if At(s, 6) != 92 || At(s, 7) != 117 then None
      else
        var d := Hex4(s, 8);
        if d < 0 || !IsLow(d) then None
        else Some((Utf8((c - 0xD800) * 0x400 + (d - 0xDC00) + 0x1_0000), 12))
    else Some((Utf8(c), 6))
  }

  /** escape2char; u stands for a Unicode escape, and 0 for none. */
  function EscapeChar(b: Byte): Byte
  {
    if b == 34 || b == 92 || b == 47 || b == 117 then b
    else if b == 98 then 8
    else if b == 116 then 9
    else if b == 110 then 10
    else if b == 102 then 12
    else if b == 114 then 13
    else 0
  }

  /** The loop of json_next_string_token behind the opening quote: the string, and what is left behind the closing one. */
  function StringBody(s: seq<Byte>): (r: Option<(seq<Byte>, seq<Byte>)>)
    ensures r.Some? ==> |r.value.0| + |r.value.1| + 1 <= |s|
    decreases |s|
  {
    var c := At(s, 0);
    if c == 34 then Some(([], s[1..]))
    else if c == 0 then None
    else if c == 92 then
      var e := EscapeChar(At(s, 1));
      if e == 117 then
        var u := UnicodeEscape(s);
        if u.None? then None else Prepend(u.value.0, StringBody(s[u.value.1..]))
      else if e == 0 then None
      else Prepend([e], StringBody(s[2..]))
    else Prepend([c], StringBody(s[1..]))
  }

  function Prepend(p: seq<Byte>, r: Option<(seq<Byte>, seq<Byte>)>): Option<(seq<Byte>, seq<Byte>)>
  {
    if r.None? then None else Some((p + r.value.0, r.value.1))
  }

  // ----- numbers

  function DigitValue(b: Byte, base: nat): (n: int)
    ensures n < 16
  {
    if HexValue(b) < base then HexValue(b) else -1
  }

  /** The digits at the front: their number and their value. */
  function DigitRun(s: seq<Byte>, base: nat, acc: nat): (r: (int, nat))
    ensures r.1 <= |s| && r.0 >= 0
  {
    if s == [] || DigitValue(s[0], base) < 0 then (acc, 0)
    else
      var r := DigitRun(s[1..], base, acc * base + DigitValue(s[0], base));
      (r.0, r.1 + 1)
  }

  function Saturated(n: int): int
  {
    if n < -0x8000_0000_0000_0000 then -0x8000_0000_0000_0000
    else if n > 0x7fff_ffff_ffff_ffff then 0x7fff_ffff_ffff_ffff
    else n
  }

  /** strtoll with base 0 on what does not begin with white space: the value, and how many bytes it takes. */
  function Strtoll(s: seq<Byte>): (r: (int, nat))
    ensures r.1 <= |s|
  {
    var k := if At(s, 0) == 45 || At(s, 0) == 43 then 1 else 0;
    var negative := At(s, 0) == 45;
    if At(s, k) == 48 && (At(s, k + 1) == 120 || At(s, k + 1) == 88) && HexValue(At(s, k + 2)) >= 0 then
      var r := DigitRun(s[k + 2..], 16, 0);
      (Saturated(if negative then 0 - r.0 else r.0), k + 2 + r.1)
    else
      var r := DigitRun(s[k..], if At(s, k) == 48 then 8 else 10, 0);
      if r.1 == 0 then (0, 0) else (Saturated(if negative then 0 - r.0 else r.0), k + r.1)
  }

  // ----- tokens

  datatype Token =
    | ObjBegin | ObjEnd | ArrBegin | ArrEnd | Colon | Comma | End
    | String(s: seq<Byte>) | Integer(n: int) | Boolean(b: bool) | NullToken
    /** A number with a fraction or an exponent, which fpconv_strtod converts. */
    | Fractional
    | Bad

  predicate Space(b: Byte)
  {
    b == 32 || b == 9 || b == 10 || b == 13
  }

  /** The tokens behind which the parser moves on. */
  function Weight(t: Token): nat
  {
    if t.End? || t.Bad? || t.Fractional? then 0 else 1
  }

  /** What a token can follow. */
  function SkipSpace(s: seq<Byte>): (t: seq<Byte>)
    ensures |t| <= |s| && !Space(At(t, 0))
  {
    if s != [] && Space(s[0]) then SkipSpace(s[1..]) else s
  }

  predicate Begins(s: seq<Byte>, p: seq<Byte>)
  {
    |p| <= |s| && s[..|p|] == p
  }

  predicate IsDigit(b: Byte)
  {
    48 <= b <= 57
  }

  function Lower(b: Byte): Byte
  {
    if 65 <= b <= 90 then b + 32 else b
  }

  /** json_is_invalid_number */
  predicate InvalidNumber(s: seq<Byte>)
  {
    if At(s, 0) == 43 then true
    else
      var k := if At(s, 0) == 45 then 1 else 0;
      if At(s, k) == 48 then At(s, k + 1) == 120 || At(s, k + 1) == 88 || IsDigit(At(s, k + 1))
      else if At(s, k) <= 57 then false
      else
        var a, b, c := Lower(At(s, k)), Lower(At(s, k + 1)), Lower(At(s, k + 2));
        (a == 105 && b == 110 && c == 102) || (a == 110 && b == 97 && c == 110)
  }

  /** json_next_number_token */
  function NumberToken(s: seq<Byte>): (r: (Token, seq<Byte>))
    ensures |r.1| + Weight(r.0) <= |s|
  {
    var n := Strtoll(s);
    if n.1 == 0 then (Bad, s)
    else
      var c := At(s, n.1);
      if c == 46 || c == 101 || c == 69 then (Fractional, s) else (Integer(n.0), s[n.1..])
  }

  /** json_next_token; lax is the option decode_invalid_numbers. */
  function NextToken(s0: seq<Byte>, lax: bool): (r: (Token, seq<Byte>))
    ensures |r.1| + Weight(r.0) <= |s0|
  {
    var s := SkipSpace(s0);
    var c := At(s, 0);
    if c == 0 then (End, s)
    else if c == 123 then (ObjBegin, s[1..])
    else if c == 125 then (ObjEnd, s[1..])
    else if c == 91 then (ArrBegin, s[1..])
    else if c == 93 then (ArrEnd, s[1..])
    else if c == 44 then (Comma, s[1..])
    else if c == 58 then (Colon, s[1..])
    else if c == 34 then
      var b := StringBody(s[1..]);
      if b.None? then (Bad, s) else (String(b.value.0), b.value.1)
    else if c == 45 || IsDigit(c) then
      if !lax && InvalidNumber(s) then (Bad, s) else NumberToken(s)
    else if Begins(s, TRUE) then (Boolean(true), s[4..])
    else if Begins(s, FALSE) then (Boolean(false), s[5..])
    else if Begins(s, NULL) then (NullToken, s[4..])
    else if lax && InvalidNumber(s) && Unknown(c) then NumberToken(s)
    else (Bad, s)
  }

  /** The bytes a longer token can begin with: f, i, I, n, N, t and +. */
  predicate Unknown(c: Byte)
  {
    c == 102 || c == 105 || c == 73 || c == 110 || c == 78 || c == 116 || c == 43
  }

  /** A decimal digit in front, or behind a sign. */
  predicate DigitAhead(s: seq<Byte>)
  {
    IsDigit(At(s, if At(s, 0) == 45 || At(s, 0) == 43 then 1 else 0))
  }

  /** strtoll makes nothing of a text exactly if it has no digit in front. */
  lemma NoNumber(s: seq<Byte>)
    ensures NumberToken(s).0 == Bad <==> !DigitAhead(s)
  {
  }

  /**
   What decode_invalid_numbers lets through of the numbers that JSON does not know: those with a digit in front, such as
   hexadecimal ones, but not infinities and NaNs.
   */
  lemma InvalidNumbers(s: seq<Byte>)
    requires InvalidNumber(s)
    ensures NextToken(s, false).0 == Bad
    ensures NextToken(s, true) == NumberToken(s)
    ensures NextToken(s, true).0 == Bad <==> !DigitAhead(s)
  {
    NoNumber(s);
    hide NumberToken;
    assert SkipSpace(s) == s;
  }

  /** inf, nan and -inf fail under either setting. */
  lemma InfNanFail(lax: bool)
    ensures NextToken([105, 110, 102], lax).0 == Bad
    ensures NextToken([110, 97, 110], lax).0 == Bad
    ensures NextToken([45, 105, 110, 102], lax).0 == Bad
  {
    hide NextToken;
    InvalidNumbers([105, 110, 102]);
    InvalidNumbers([110, 97, 110]);
    InvalidNumbers([45, 105, 110, 102]);
  }

  /** 0x10 fails under one setting and is sixteen under the other. */
  lemma HexIsRead()
    ensures NextToken([48, 120, 49, 48], false).0 == Bad && NextToken([48, 120, 49, 48], true) == (Integer(16), [])
  {
    hide NextToken;
    var hex: seq<Byte> := [48, 120, 49, 48];
    InvalidNumbers(hex);
    assert hex[2..] == [49, 48];
    OneZero();
  }

  /** Without the option a number has a digit behind its sign, and no digit or x behind a zero in front. */
  lemma StrictNumbers(s: seq<Byte>)
    requires At(s, 0) == 45 || 48 <= At(s, 0) <= 57
    ensures var k := if At(s, 0) == 45 then 1 else 0; var c, d := At(s, k), At(s, k + 1);
      NextToken(s, false).0 != Bad <==>
        48 <= c <= 57 && (c == 48 ==> !(48 <= d <= 57) && d != 120 && d != 88)
  {
    NoNumber(s);
    hide NumberToken;
    assert SkipSpace(s) == s;
  }

  /** 010, -0x1F and +7 with the option. */
  lemma OctalIsRead()
    ensures NextToken([48, 49, 48], true) == (Integer(8), [])
  {
    hide NextToken;
    var s: seq<Byte> := [48, 49, 48];
    InvalidNumbers(s);
    assert s[0..] == s;
    ThreeRuns();
  }

  lemma NegativeHexIsRead()
    ensures NextToken([45, 48, 120, 49, 70], true) == (Integer(-31), [])
  {
    hide NextToken;
    var s: seq<Byte> := [45, 48, 120, 49, 70];
    InvalidNumbers(s);
    assert s[3..] == [49, 70];
    ThreeRuns();
  }

  /** An x without a digit behind it is not part of the number. */
  lemma HexNeedsDigit()
    ensures NextToken([48, 120], true) == (Integer(0), [120])
  {
    hide NextToken;
    var s: seq<Byte> := [48, 120];
    InvalidNumbers(s);
    assert s[0..] == s && s[1..] == [120];
    assert DigitRun([120], 8, 0) == (0, 0);
  }

  /** The number that digits denote, behind what was read before. */
  ghost function Positional(acc: int, ds: seq<Byte>, base: nat): int
  {
    if ds == [] then acc else Positional(acc, ds[..|ds| - 1], base) * base + HexValue(ds[|ds| - 1])
  }

  lemma {:induction false} PositionalFirst(acc: int, ds: seq<Byte>, base: nat)
    requires ds != []
    ensures Positional(acc, ds, base) == Positional(acc * base + HexValue(ds[0]), ds[1..], base)
  {
    var n := |ds| - 1;
    if n > 0 {
      PositionalFirst(acc, ds[..n], base);
      assert ds[..n][1..] == ds[1..][..n - 1];
    } else {
      assert ds[..0] == [] && ds[1..] == [];
    }
  }

  /** The digits in front are all those below the base, up to the first byte that is none, and read in this base. */
  lemma {:induction false} RunIs(s: seq<Byte>, base: nat, acc: nat)
    ensures var r := DigitRun(s, base, acc);
      && (forall j :: 0 <= j < r.1 ==> 0 <= HexValue(s[j]) < base)
      && (r.1 < |s| ==> !(0 <= HexValue(s[r.1]) < base))
      && r.0 == Positional(acc, s[..r.1], base)
  {
    hide HexValue;
    if s != [] && 0 <= HexValue(s[0]) < base {
      RunIs(s[1..], base, acc * base + HexValue(s[0]));
      var n := DigitRun(s, base, acc).1;
      PositionalFirst(acc, s[..n], base);
      assert s[..n][1..] == s[1..][..n - 1];
      assert forall j :: 0 < j < n ==> s[j] == s[1..][j - 1];
    }
  }

  lemma PlusIsRead()
    ensures NextToken([43, 55], true) == (Integer(7), [])
  {
    hide NextToken;
    var s: seq<Byte> := [43, 55];
    InvalidNumbers(s);
    assert s[1..] == [55];
    ThreeRuns();
  }

  lemma ThreeRuns()
    ensures DigitRun([48, 49, 48], 8, 0) == (8, 3) && DigitRun([49, 70], 16, 0) == (31, 2) && DigitRun([55], 10, 0) == (7, 1)
  {
    var a: seq<Byte>, b: seq<Byte> := [48, 49, 48], [49, 70];
    assert a[1..] == [49, 48] && a[1..][1..] == [48] && b[1..] == [70];
    assert DigitRun([48], 8, 1) == (8, 1) && DigitRun([49, 48], 8, 0) == (8, 2) && DigitRun([70], 16, 1) == (31, 1);
  }

  lemma OneZero()
    ensures DigitRun([49, 48], 16, 0) == (16, 2)
  {
    var s: seq<Byte> := [49, 48];
    assert s[1..] == [48] && s[1..][1..] == [];
    assert DigitRun([48], 16, 1) == (16, 1);
  }

  // ----- values

  /** Fail is an error raised; Unmodelled a number that fpconv_strtod converts. */
  datatype Parsed<T> = Done(value: T, rest: seq<Byte>) | Fail | Unmodelled

  /** lua_rawset of a key that may be there already. */
  function Put(ms: seq<Member>, key: seq<Byte>, v: Value): seq<Member>
  {
    if ms == [] then [Member(key, v)]
    else if ms[0].key == key then [Member(key, v)] + ms[1..]
    else [ms[0]] + Put(ms[1..], key, v)
  }

  datatype Options = Options(lax: bool, maxDepth: nat)

  /** json_process_value, with the depth of the tables around it. */
  function ParseValue(token: Token, s: seq<Byte>, depth: nat, opts: Options): (r: Parsed<Value>)
    ensures r.Done? ==> |r.rest| <= |s|
    decreases |s| + Weight(token), 1
  {
    match token
    case String(t) => Done(Str(t), s)
    case Integer(n) => Done(Int(n), s)
    case Boolean(b) => Done(Bool(b), s)
    case NullToken => Done(Null, s)
    case Fractional => Unmodelled
    case ObjBegin =>
      if depth + 1 > opts.maxDepth then Fail
      else
        var t := NextToken(s, opts.lax);
        if t.0 == ObjEnd then Done(Obj([]), t.1)
        else ParseMembers(t.0, t.1, depth + 1, opts, [])
    case ArrBegin =>
      if depth + 1 > opts.maxDepth then Fail
      else
        var t := NextToken(s, opts.lax);
        if t.0 == ArrEnd then Done(Obj([]), t.1)
        else ParseItems(t.0, t.1, depth + 1, opts, [])
    case _ => Fail
  }

  /** The loop of json_parse_object_context, from a key on. */
  function ParseMembers(token: Token, s: seq<Byte>, depth: nat, opts: Options, ms: seq<Member>): (r: Parsed<Value>)
    ensures r.Done? ==> |r.rest| <= |s|
    decreases |s| + Weight(token), 2
  {
    if !token.String? then Fail
    else
      var colon := NextToken(s, opts.lax);
      if colon.0 != Colon then Fail
      else
        var t := NextToken(colon.1, opts.lax);
        match ParseValue(t.0, t.1, depth, opts)
        case Fail => Fail
        case Unmodelled => Unmodelled
        case Done(v, rest) =>
          var e := NextToken(rest, opts.lax);
          if e.0 == ObjEnd then Done(Obj(Put(ms, token.s, v)), e.1)
          else if e.0 != Comma then Fail
          else
            var k := NextToken(e.1, opts.lax);
            ParseMembers(k.0, k.1, depth, opts, Put(ms, token.s, v))
  }

  /** The loop of json_parse_array_context, from an item on. */
  function ParseItems(token: Token, s: seq<Byte>, depth: nat, opts: Options, items: seq<Value>): (r: Parsed<Value>)
    ensures r.Done? ==> |r.rest| <= |s|
    decreases |s| + Weight(token), 2
  {
    match ParseValue(token, s, depth, opts)
    case Fail => Fail
    case Unmodelled => Unmodelled
    case Done(v, rest) =>
      var e := NextToken(rest, opts.lax);
      if e.0 == ArrEnd then Done(Arr(items + [v]), e.1)
      else if e.0 != Comma then Fail
      else
        var t := NextToken(e.1, opts.lax);
        ParseItems(t.0, t.1, depth, opts, items + [v])
  }

  /** json_decode */
  function Decode(s: seq<Byte>, opts: Options): Parsed<Value>
  {
    if |s| >= 2 && (s[0] == 0 || s[1] == 0) then Fail
    else
      var t := NextToken(s, opts.lax);
      match ParseValue(t.0, t.1, 0, opts)
      case Fail => Fail
      case Unmodelled => Unmodelled
      case Done(v, rest) =>
        var e := NextToken(rest, opts.lax);
        if e.0 == End then Done(v, e.1) else Fail
  }
}
