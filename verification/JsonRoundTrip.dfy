/** Decoding undoes encoding. */
module JsonRoundTrip {
  import opened Bytes
  import opened JsonParsing
  import opened JsonValues

  // ----- strings

  lemma HexDigits(b: Byte, t: seq<Byte>)
    ensures Hex4([92, 117, 48, 48, HexDigit(b / 16), HexDigit(b % 16)] + t, 2) == b
  {
    var s := [92, 117, 48, 48, HexDigit(b / 16), HexDigit(b % 16)] + t;
    assert At(s, 2) == 48 && At(s, 3) == 48 && At(s, 4) == HexDigit(b / 16) && At(s, 5) == HexDigit(b % 16);
  }

  lemma QuotedReads(b: Byte, t: seq<Byte>)
    ensures StringBody(Quoted(b) + t) == Prepend([b], StringBody(t))
  {
    var s := Quoted(b) + t;
    if Escaped(b) == [] {
      assert s[1..] == t;
    } else if |Escaped(b)| == 6 {
      HexDigits(b, t);
      assert s[6..] == t;
      assert At(s, 0) == 92 && At(s, 1) == 117;
      assert UnicodeEscape(s) == Some(([b], 6));
    } else {
      assert At(s, 0) == 92 && At(s, 1) == Escaped(b)[1];
      assert s[2..] == t;
    }
  }

  lemma QuotedMore(s: seq<Byte>, t: seq<Byte>)
    requires s != []
    ensures QuotedAll(s) + [34] + t == Quoted(s[0]) + (QuotedAll(s[1..]) + [34] + t)
  {
    hide Quoted;
    Chain3(Quoted(s[0]), QuotedAll(s[1..]), [34], t);
  }

  lemma ClosingQuote(t: seq<Byte>)
    ensures StringBody(QuotedAll([]) + [34] + t) == Some(([], t))
  {
    assert ([34] + t)[1..] == t;
    assert QuotedAll([]) + [34] + t == [34] + t;
  }

  /** Reading a string undoes writing it, whatever its bytes are. */
  lemma {:induction false} StringReads(s: seq<Byte>, t: seq<Byte>)
    ensures StringBody(QuotedAll(s) + [34] + t) == Some((s, t))
  {
    hide StringBody, Quoted, QuotedAll;
    if s == [] {
      ClosingQuote(t);
    } else {
      StringReads(s[1..], t);
      QuotedReads(s[0], QuotedAll(s[1..]) + [34] + t);
      QuotedMore(s, t);
      assert s == [s[0]] + s[1..];
    }
  }

  // ----- integers

  /** What can follow a value: the end, a comma, a closing bracket, or white space. */
  predicate Delimited(t: seq<Byte>)
  {
    var c := At(t, 0);
    c == 0 || c == 44 || c == 93 || c == 125 || c == 32 || c == 9 || c == 10 || c == 13
  }

  lemma {:induction false} DigitsRun(n: nat, t: seq<Byte>)
    ensures var r := DigitRun(t, 10, n);
      DigitRun(Digits(n) + t, 10, 0) == (r.0, r.1 + |Digits(n)|)
    ensures n > 0 ==> Digits(n)[0] != 48
    ensures 48 <= Digits(n)[0] <= 57
  {
    if n < 10 {
      var s := Digits(n) + t;
      assert s[1..] == t && s[0] == 48 + n;
    } else {
      var d := 48 + n % 10;
      DigitsRun(n / 10, [d] + t);
      assert Digits(n) + t == Digits(n / 10) + ([d] + t);
      var s := [d] + t;
      assert s[1..] == t && s[0] == d;
      assert DigitRun(s, 10, n / 10) == (DigitRun(t, 10, n).0, DigitRun(t, 10, n).1 + 1);
      assert Digits(n)[0] == Digits(n / 10)[0];
    }
  }

  lemma DecimalReads(n: int, t: seq<Byte>)
    requires Delimited(t)
    ensures Strtoll(Decimal(n) + t) ==
      (if n < -0x8000_0000_0000_0000 then -0x8000_0000_0000_0000
       else if n > 0x7fff_ffff_ffff_ffff then 0x7fff_ffff_ffff_ffff else n, |Decimal(n)|)
  {
    var m: nat := if n < 0 then -n else n;
    var s := Decimal(n) + t;
    var k := if n < 0 then 1 else 0;
    DigitsRun(m, t);
    if m == 0 {
      ZeroReads(t);
      return;
    }
    hide Digits, DigitRun, HexValue, Delimited;
    assert s[k..] == Digits(m) + t;
    NoDigits(t, m);
    assert s[k] == Digits(m)[0];
    assert At(s, k) != 48;
  }

  lemma ZeroReads(t: seq<Byte>)
    requires Delimited(t)
    ensures Strtoll(Decimal(0) + t) == (0, |Decimal(0)|)
  {
    var s := Decimal(0) + t;
    assert At(s, 1) == At(t, 0) && s[0] == 48;
    NoDigits(t, 0);
    assert s[0..] == s && s[1..] == t;
    assert DigitRun(s, 8, 0) == (0, 1);
  }

  lemma NoDigits(t: seq<Byte>, acc: nat)
    requires Delimited(t)
    ensures DigitRun(t, 10, acc) == (acc, 0) && DigitRun(t, 8, acc) == (acc, 0)
  {
  }

  // ----- first tokens

  lemma Prefix(p: seq<Byte>, t: seq<Byte>)
    ensures (p + t)[|p|..] == t && Begins(p + t, p)
  {
  }

  /** A token of one byte. */
  lemma OneByte(b: Byte, t: seq<Byte>, lax: bool)
    requires b == 123 || b == 125 || b == 91 || b == 93 || b == 44 || b == 58
    ensures NextToken([b] + t, lax) == (match b
      case 123 => ObjBegin
      case 125 => ObjEnd
      case 91 => ArrBegin
      case 93 => ArrEnd
      case 44 => Comma
      case _ => Colon, t)
  {
    assert ([b] + t)[1..] == t;
  }

  lemma StringToken(s: seq<Byte>, t: seq<Byte>, lax: bool)
    ensures NextToken(StringText(s) + t, lax) == (String(s), t)
  {
    StringReads(s, t);
    hide StringBody, QuotedAll;
    var x := StringText(s) + t;
    assert x[1..] == QuotedAll(s) + [34] + t && x[0] == 34;
  }

  lemma IntegerToken(n: int, t: seq<Byte>, lax: bool)
    requires -0x8000_0000_0000_0000 <= n <= 0x7fff_ffff_ffff_ffff && Delimited(t)
    ensures NextToken(Decimal(n) + t, lax) == (Integer(n), t)
  {
    DecimalReads(n, t);
    Prefix(Decimal(n), t);
    var m: nat := if n < 0 then -n else n;
    DigitsRun(m, t);
    var x := Decimal(n) + t;
    var k := if n < 0 then 1 else 0;
    assert x[k] == Digits(m)[0];
    assert m == 0 ==> At(x, k + 1) == At(t, 0);
    assert At(x, |Decimal(n)|) == At(t, 0);
    hide Strtoll, Decimal, Digits;
    assert !InvalidNumber(x);
  }

  ghost function FirstToken(v: Value): Token
  {
    match v
    case Null => NullToken
    case Bool(b) => Boolean(b)
    case Int(n) => Integer(n)
    case Str(s) => String(s)
    case Arr(_) => ArrBegin
    case Obj(_) => ObjBegin
  }

  ghost function BehindFirst(v: Value): seq<Byte>
  {
    match v
    case Arr(items) => ItemsText(items) + [93]
    case Obj(ms) => MembersText(ms) + [125]
    case _ => []
  }

  lemma Words(t: seq<Byte>, lax: bool)
    ensures NextToken(TRUE + t, lax) == (Boolean(true), t)
    ensures NextToken(FALSE + t, lax) == (Boolean(false), t)
    ensures NextToken(NULL + t, lax) == (NullToken, t)
  {
    Prefix(TRUE, t);
    Prefix(FALSE, t);
    Prefix(NULL, t);
    assert (TRUE + t)[0] == 116 && (FALSE + t)[0] == 102 && (NULL + t)[0] == 110;
  }

  lemma Alone<T>(t: seq<T>)
    ensures [] + t == t
  {
  }

  lemma Regroup<T>(acc: seq<T>, s: seq<T>)
    requires s != []
    ensures acc + [s[0]] + s[1..] == acc + s
    ensures |s| == 1 ==> acc + [s[0]] == acc + s
  {
  }

  lemma ValueToken(v: Value, t: seq<Byte>, lax: bool)
    requires WellFormed(v) && Delimited(t)
    ensures NextToken(Text(v) + t, lax) == (FirstToken(v), BehindFirst(v) + t)
  {
    hide NextToken, Delimited, ItemsText, MembersText, Decimal, StringText, WellFormed;
    Alone(t);
    match v
    case Null => Words(t, lax);
    case Bool(b) => Words(t, lax);
    case Int(n) =>
      Bounded(n);
      IntegerToken(n, t, lax);
    case Str(s) =>
      StringToken(s, t, lax);
    case Arr(items) =>
      OneByte(91, BehindFirst(v) + t, lax);
      Assoc([91], ItemsText(items), [93]);
      Assoc([91], BehindFirst(v), t);
    case Obj(ms) =>
      OneByte(123, BehindFirst(v) + t, lax);
      Assoc([123], MembersText(ms), [125]);
      Assoc([123], BehindFirst(v), t);
  }

  lemma Bounded(n: int)
    requires WellFormed(Int(n))
    ensures -0x8000_0000_0000_0000 <= n <= 0x7fff_ffff_ffff_ffff
  {
  }

  // ----- values

  /** What the parser makes of a text with a value at its front: the value, unless its tables are nested too deep. */
  ghost predicate Reads(r: Parsed<Value>, v: Value, deep: bool, t: seq<Byte>)
  {
    r == if deep then Fail else Done(v, t)
  }

  lemma {:induction false} ValueReads(v: Value, t: seq<Byte>, depth: nat, opts: Options)
    requires WellFormed(v) && Delimited(t) && depth <= opts.maxDepth
    ensures Reads(ParseValue(FirstToken(v), BehindFirst(v) + t, depth, opts), v, depth + Depth(v) > opts.maxDepth, t)
    decreases v
  {
    hide ParseMembers, ParseItems, ItemsText, MembersText, ItemsDepth, MembersDepth, WellFormed, Delimited;
    Alone(t);
    match v
    case Null =>
    case Bool(b) =>
    case Int(n) =>
    case Str(s) =>
    case Arr(items) =>
      if depth + 1 <= opts.maxDepth {
        ArrayReads(v, t, depth, opts);
      }
    case Obj(ms) =>
      if depth + 1 <= opts.maxDepth {
        ObjectReads(v, t, depth, opts);
      }
  }

  lemma {:induction false} ArrayReads(v: Value, t: seq<Byte>, depth: nat, opts: Options)
    requires v.Arr? && WellFormed(v) && Delimited(t) && depth + 1 <= opts.maxDepth
    ensures Reads(ParseValue(ArrBegin, BehindFirst(v) + t, depth, opts), v, depth + Depth(v) > opts.maxDepth, t)
    decreases v, 0
  {
    hide NextToken, ParseItems, ParseValue, Text, ItemsText, WellFormed, ItemsBehind, FirstToken, ItemsDepth, Delimited;
    var items := v.items;
    WellFormedItems(v);
    ItemsToken(items, t, opts.lax);
    ItemsRead(items, [], t, depth + 1, opts);
    NotAnEnd(items[0]);
    ArrayStep(BehindFirst(v) + t, depth, opts, FirstToken(items[0]), ItemsBehind(items, t));
    Alone(items);
  }

  lemma WellFormedItems(v: Value)
    requires v.Arr? && WellFormed(v)
    ensures v.items != [] && forall k :: 0 <= k < |v.items| ==> WellFormed(v.items[k])
  {
  }

  lemma NotAnEnd(v: Value)
    ensures !FirstToken(v).ArrEnd? && !FirstToken(v).ObjEnd?
  {
  }

  lemma ArrayStep(s: seq<Byte>, depth: nat, opts: Options, token: Token, u: seq<Byte>)
    requires depth + 1 <= opts.maxDepth && NextToken(s, opts.lax) == (token, u) && !token.ArrEnd?
    ensures ParseValue(ArrBegin, s, depth, opts) == ParseItems(token, u, depth + 1, opts, [])
  {
  }

  lemma ObjectStep(s: seq<Byte>, depth: nat, opts: Options, token: Token, u: seq<Byte>)
    requires depth + 1 <= opts.maxDepth && NextToken(s, opts.lax) == (token, u)
    ensures ParseValue(ObjBegin, s, depth, opts) ==
      if token.ObjEnd? then Done(Obj([]), u) else ParseMembers(token, u, depth + 1, opts, [])
  {
  }

  /** What is behind the first token of a series of items. */
  ghost function ItemsBehind(items: seq<Value>, t: seq<Byte>): seq<Byte>
    requires items != []
  {
    BehindFirst(items[0]) + ItemsTail(items, t)
  }

  /** What is behind the first item. */
  ghost function ItemsTail(items: seq<Value>, t: seq<Byte>): seq<Byte>
    requires items != []
  {
    if |items| == 1 then [93] + t else [44] + (ItemsText(items[1..]) + [93] + t)
  }

  lemma ItemsToken(items: seq<Value>, t: seq<Byte>, lax: bool)
    requires items != [] && WellFormed(items[0])
    ensures NextToken(ItemsText(items) + [93] + t, lax) == (FirstToken(items[0]), ItemsBehind(items, t))
    ensures Delimited(ItemsTail(items, t))
  {
    hide NextToken;
    ValueToken(items[0], ItemsTail(items, t), lax);
    assert ItemsText(items) + [93] + t == Text(items[0]) + ItemsTail(items, t);
  }

  // ----- one round of either loop

  lemma LastItem(token: Token, s: seq<Byte>, depth: nat, opts: Options, acc: seq<Value>, v: Value, rest: seq<Byte>, t: seq<Byte>)
    requires ParseValue(token, s, depth, opts) == Done(v, rest) && NextToken(rest, opts.lax) == (ArrEnd, t)
    ensures ParseItems(token, s, depth, opts, acc) == Done(Arr(acc + [v]), t)
  {
  }

  lemma NextItem(token: Token, s: seq<Byte>, depth: nat, opts: Options, acc: seq<Value>, v: Value, rest: seq<Byte>,
                 t: seq<Byte>, token': Token, s': seq<Byte>)
    requires ParseValue(token, s, depth, opts) == Done(v, rest) && NextToken(rest, opts.lax) == (Comma, t)
    requires NextToken(t, opts.lax) == (token', s')
    ensures ParseItems(token, s, depth, opts, acc) == ParseItems(token', s', depth, opts, acc + [v])
  {
  }

  lemma BadItem(token: Token, s: seq<Byte>, depth: nat, opts: Options, acc: seq<Value>)
    requires ParseValue(token, s, depth, opts) == Fail
    ensures ParseItems(token, s, depth, opts, acc) == Fail
  {
  }

  lemma LastMember(key: seq<Byte>, s: seq<Byte>, depth: nat, opts: Options, acc: seq<Member>, u: seq<Byte>,
                   token: Token, s': seq<Byte>, v: Value, rest: seq<Byte>, t: seq<Byte>)
    requires NextToken(s, opts.lax) == (Colon, u) && NextToken(u, opts.lax) == (token, s')
    requires ParseValue(token, s', depth, opts) == Done(v, rest) && NextToken(rest, opts.lax) == (ObjEnd, t)
    ensures ParseMembers(String(key), s, depth, opts, acc) == Done(Obj(Put(acc, key, v)), t)
  {
  }

  lemma NextMember(key: seq<Byte>, s: seq<Byte>, depth: nat, opts: Options, acc: seq<Member>, u: seq<Byte>,
                   token: Token, s': seq<Byte>, v: Value, rest: seq<Byte>, t: seq<Byte>, token': Token, t': seq<Byte>)
    requires NextToken(s, opts.lax) == (Colon, u) && NextToken(u, opts.lax) == (token, s')
    requires ParseValue(token, s', depth, opts) == Done(v, rest) && NextToken(rest, opts.lax) == (Comma, t)
    requires NextToken(t, opts.lax) == (token', t')
    ensures ParseMembers(String(key), s, depth, opts, acc) == ParseMembers(token', t', depth, opts, Put(acc, key, v))
  {
  }

  lemma BadMember(key: seq<Byte>, s: seq<Byte>, depth: nat, opts: Options, acc: seq<Member>, u: seq<Byte>,
                  token: Token, s': seq<Byte>)
    requires NextToken(s, opts.lax) == (Colon, u) && NextToken(u, opts.lax) == (token, s')
    requires ParseValue(token, s', depth, opts) == Fail
    ensures ParseMembers(String(key), s, depth, opts, acc) == Fail
  {
  }

  // ----- arrays

  lemma {:induction false} ItemsRead(items: seq<Value>, acc: seq<Value>, t: seq<Byte>, depth: nat, opts: Options)
    requires items != [] && (forall k :: 0 <= k < |items| ==> WellFormed(items[k])) && depth <= opts.maxDepth
    ensures Reads(ParseItems(FirstToken(items[0]), ItemsBehind(items, t), depth, opts, acc), Arr(acc + items),
                  depth + ItemsDepth(items) > opts.maxDepth, t)
    decreases items
  {
    hide NextToken, ParseItems, ParseValue, ItemsText, FirstToken, BehindFirst, WellFormed, Delimited, Depth;
    var tail, first := ItemsTail(items, t), FirstToken(items[0]);
    ItemsToken(items, t, opts.lax);
    ValueReads(items[0], tail, depth, opts);
    if depth + Depth(items[0]) > opts.maxDepth {
      BadItem(first, ItemsBehind(items, t), depth, opts, acc);
    } else if |items| == 1 {
      OneByte(93, t, opts.lax);
      LastItem(first, ItemsBehind(items, t), depth, opts, acc, items[0], tail, t);
      Regroup(acc, items);
    } else {
      var more := items[1..];
      OneByte(44, ItemsText(more) + [93] + t, opts.lax);
      ItemsToken(more, t, opts.lax);
      NextItem(first, ItemsBehind(items, t), depth, opts, acc, items[0], tail, ItemsText(more) + [93] + t,
        FirstToken(more[0]), ItemsBehind(more, t));
      ItemsRead(more, acc + [items[0]], t, depth, opts);
      Regroup(acc, items);
    }
  }

  // ----- objects

  lemma {:induction false} ObjectReads(v: Value, t: seq<Byte>, depth: nat, opts: Options)
    requires v.Obj? && WellFormed(v) && Delimited(t) && depth + 1 <= opts.maxDepth
    ensures Reads(ParseValue(ObjBegin, BehindFirst(v) + t, depth, opts), v, depth + Depth(v) > opts.maxDepth, t)
    decreases v, 0
  {
    hide NextToken, ParseMembers, ParseValue, Text, MembersText, WellFormed, MembersColon, MembersDepth, Distinct, Delimited;
    var ms := v.members;
    WellFormedMembers(v);
    if ms == [] {
      OneByte(125, t, opts.lax);
      NoMembers();
      Alone([125]);
      ObjectStep(BehindFirst(v) + t, depth, opts, ObjEnd, t);
    } else {
      MembersToken(ms, t, opts.lax);
      MembersRead(ms, [], t, depth + 1, opts);
      PutAllNew([], ms);
      ObjectStep(BehindFirst(v) + t, depth, opts, String(ms[0].key), MembersColon(ms, t));
      Alone(ms);
    }
  }

  lemma NoMembers()
    ensures MembersText([]) == [] && MembersDepth([]) == 0
  {
  }

  lemma WellFormedMembers(v: Value)
    requires v.Obj? && WellFormed(v)
    ensures Distinct([], v.members) && forall k :: 0 <= k < |v.members| ==> WellFormed(v.members[k].value)
  {
  }

  /** What is behind the first key, its colon, and the first token of its value. */
  ghost function MembersColon(ms: seq<Member>, t: seq<Byte>): seq<Byte>
    requires ms != []
  {
    [58] + MembersValue(ms, t)
  }

  ghost function MembersValue(ms: seq<Member>, t: seq<Byte>): seq<Byte>
    requires ms != []
  {
    Text(ms[0].value) + MembersTail(ms, t)
  }

  ghost function MembersTail(ms: seq<Member>, t: seq<Byte>): seq<Byte>
    requires ms != []
  {
    if |ms| == 1 then [125] + t else [44] + (MembersText(ms[1..]) + [125] + t)
  }

  lemma MembersToken(ms: seq<Member>, t: seq<Byte>, lax: bool)
    requires ms != []
    ensures NextToken(MembersText(ms) + [125] + t, lax) == (String(ms[0].key), MembersColon(ms, t))
    ensures Delimited(MembersTail(ms, t))
  {
    StringToken(ms[0].key, MembersColon(ms, t), lax);
    MembersSplit(ms, t);
  }

  lemma MembersSplit(ms: seq<Member>, t: seq<Byte>)
    requires ms != []
    ensures MembersText(ms) + [125] + t == StringText(ms[0].key) + MembersColon(ms, t)
  {
    var a, b := StringText(ms[0].key), Text(ms[0].value);
    var c := if |ms| == 1 then [] else [44] + MembersText(ms[1..]);
    assert MembersText(ms) == a + [58] + b + c;
    hide StringText, Text, MembersText;
    Chain(a, b, c, t);
    if |ms| > 1 {
      Chain3([44], MembersText(ms[1..]), [125], t);
    } else {
      Alone([125]);
    }
  }

  lemma Chain(a: seq<Byte>, b: seq<Byte>, c: seq<Byte>, t: seq<Byte>)
    ensures a + [58] + b + c + [125] + t == a + ([58] + (b + (c + [125] + t)))
  {
  }

  lemma Chain3(a: seq<Byte>, b: seq<Byte>, c: seq<Byte>, t: seq<Byte>)
    ensures a + b + c + t == a + (b + c + t)
  {
  }

  lemma PutNew(ms: seq<Member>, key: seq<Byte>, v: Value)
    requires forall k :: 0 <= k < |ms| ==> ms[k].key != key
    ensures Put(ms, key, v) == ms + [Member(key, v)]
  {
  }

  /** The members of an object that is read: of two equal keys the later one wins. */
  ghost function PutAll(acc: seq<Member>, ms: seq<Member>): seq<Member>
    decreases ms
  {
    if ms == [] then acc else PutAll(Put(acc, ms[0].key, ms[0].value), ms[1..])
  }

  /** Distinct keys keep their order. */
  lemma {:induction false} PutAllNew(acc: seq<Member>, ms: seq<Member>)
    requires Distinct(acc, ms)
    ensures PutAll(acc, ms) == acc + ms
    decreases ms
  {
    if ms != [] {
      DistinctNext(acc, ms);
      PutNew(acc, ms[0].key, ms[0].value);
      PutAllNew(acc + [ms[0]], ms[1..]);
      Regroup(acc, ms);
    }
  }

  ghost predicate Distinct(acc: seq<Member>, ms: seq<Member>)
  {
    && (forall j, k :: 0 <= j < k < |ms| ==> ms[j].key != ms[k].key)
    && forall j, k :: 0 <= j < |acc| && 0 <= k < |ms| ==> acc[j].key != ms[k].key
  }

  lemma DistinctNext(acc: seq<Member>, ms: seq<Member>)
    requires Distinct(acc, ms) && ms != []
    ensures Distinct(acc + [ms[0]], ms[1..])
    ensures forall k :: 0 <= k < |acc| ==> acc[k].key != ms[0].key
  {
  }

  lemma MembersEnd(ms: seq<Member>, t: seq<Byte>)
    requires ms != []
    ensures MembersTail(ms, t) == if |ms| == 1 then [125] + t else [44] + (MembersText(ms[1..]) + [125] + t)
  {
  }

  lemma PutAllStep(acc: seq<Member>, ms: seq<Member>)
    requires ms != []
    ensures PutAll(acc, ms) == PutAll(Put(acc, ms[0].key, ms[0].value), ms[1..])
    ensures |ms| == 1 ==> PutAll(acc, ms) == Put(acc, ms[0].key, ms[0].value)
  {
  }

  lemma {:induction false} MembersRead(ms: seq<Member>, acc: seq<Member>, t: seq<Byte>, depth: nat, opts: Options)
    requires ms != [] && (forall k :: 0 <= k < |ms| ==> WellFormed(ms[k].value)) && depth <= opts.maxDepth
    ensures Reads(ParseMembers(String(ms[0].key), MembersColon(ms, t), depth, opts, acc), Obj(PutAll(acc, ms)),
                  depth + MembersDepth(ms) > opts.maxDepth, t)
    decreases ms
  {
    hide NextToken, ParseMembers, ParseValue, MembersText, Text, FirstToken, BehindFirst, WellFormed, Delimited, Depth, Put;
    hide MembersTail, PutAll;
    var key, v, tail := ms[0].key, ms[0].value, MembersTail(ms, t);
    var s, u := MembersColon(ms, t), MembersValue(ms, t);
    PutAllStep(acc, ms);
    MembersToken(ms, t, opts.lax);
    OneByte(58, u, opts.lax);
    ValueToken(v, tail, opts.lax);
    ValueReads(v, tail, depth, opts);
    if depth + Depth(v) > opts.maxDepth {
      BadMember(key, s, depth, opts, acc, u, FirstToken(v), BehindFirst(v) + tail);
    } else if |ms| == 1 {
      OneByte(125, t, opts.lax);
      MembersEnd(ms, t);
      LastMember(key, s, depth, opts, acc, u, FirstToken(v), BehindFirst(v) + tail, v, tail, t);
    } else {
      var more := ms[1..];
      MembersEnd(ms, t);
      OneByte(44, MembersText(more) + [125] + t, opts.lax);
      MembersToken(more, t, opts.lax);
      NextMember(key, s, depth, opts, acc, u, FirstToken(v), BehindFirst(v) + tail, v, tail,
        MembersText(more) + [125] + t, String(more[0].key), MembersColon(more, t));
      MembersRead(more, Put(acc, key, v), t, depth, opts);
    }
  }

  // ----- whole texts

  /** No control bytes, neither NUL nor DEL among them. */
  predicate Printable(s: seq<Byte>)
  {
    forall k :: 0 <= k < |s| ==> 32 <= s[k] && s[k] != 127
  }

  lemma PrintableJoin(a: seq<Byte>, b: seq<Byte>)
    requires Printable(a) && Printable(b)
    ensures Printable(a + b)
  {
  }

  lemma {:induction false} DigitsPrintable(n: nat)
    ensures Printable(Digits(n))
  {
    if n >= 10 {
      DigitsPrintable(n / 10);
    }
  }

  lemma DecimalPrintable(n: int)
    ensures Printable(Decimal(n))
  {
    DigitsPrintable(if n < 0 then -n else n);
    hide Digits;
  }

  lemma {:induction false} StringPrintable(s: seq<Byte>)
    ensures Printable(QuotedAll(s))
  {
    if s != [] {
      QuotedPrintable(s[0]);
      StringPrintable(s[1..]);
      PrintableJoin(Quoted(s[0]), QuotedAll(s[1..]));
      hide Quoted;
    }
  }

  lemma QuotedPrintable(b: Byte)
    ensures Printable(Quoted(b))
  {
  }

  lemma Enclosing(open: Byte, s: seq<Byte>, close: Byte)
    requires Printable(s) && 32 <= open && open != 127 && 32 <= close && close != 127
    ensures Printable([open] + s + [close])
  {
  }

  lemma StringTextPrintable(s: seq<Byte>)
    ensures Printable(StringText(s))
  {
    StringPrintable(s);
    hide QuotedAll;
    Enclosing(34, QuotedAll(s), 34);
  }

  /** The encoder writes no control bytes. */
  lemma {:induction false} TextPrintable(v: Value)
    ensures Printable(Text(v))
    decreases v
  {
    hide Decimal, StringText, ItemsText, MembersText;
    match v
    case Int(n) => DecimalPrintable(n);
    case Str(s) => StringTextPrintable(s);
    case Arr(items) =>
      ItemsPrintable(items);
      Enclosing(91, ItemsText(items), 93);
    case Obj(ms) =>
      MembersPrintable(ms);
      Enclosing(123, MembersText(ms), 125);
    case _ =>
  }

  lemma {:induction false} ItemsPrintable(items: seq<Value>)
    ensures Printable(ItemsText(items))
    decreases items
  {
    if items != [] {
      TextPrintable(items[0]);
      ItemsPrintable(items[1..]);
      hide Text;
      PrintableJoin([44], ItemsText(items[1..]));
      PrintableJoin(Text(items[0]), [44] + ItemsText(items[1..]));
      Alone(Text(items[0]));
      assert Text(items[0]) + [] == Text(items[0]);
      hide Printable;
    }
  }

  lemma {:induction false} MembersPrintable(ms: seq<Member>)
    ensures Printable(MembersText(ms))
    decreases ms
  {
    if ms != [] {
      var a, b := StringText(ms[0].key), Text(ms[0].value);
      StringTextPrintable(ms[0].key);
      TextPrintable(ms[0].value);
      MembersPrintable(ms[1..]);
      PrintableJoin(a, [58]);
      PrintableJoin(a + [58], b);
      PrintableJoin([44], MembersText(ms[1..]));
      PrintableJoin(a + [58] + b, [44] + MembersText(ms[1..]));
      assert a + [58] + b + [] == a + [58] + b;
      hide Printable, Text, StringText;
    }
  }

  predicate NoNul(s: seq<Byte>)
  {
    forall k :: 0 <= k < |s| ==> s[k] != 0
  }

  /** The encoder never writes a NUL byte. */
  lemma TextNoNul(v: Value)
    ensures NoNul(Text(v))
  {
    TextPrintable(v);
  }

  /** The text of a value decodes to that value, unless its tables are nested deeper than the decoder allows. */
  lemma DecodeText(v: Value, opts: Options)
    requires WellFormed(v)
    ensures Decode(Text(v), opts) == if Depth(v) > opts.maxDepth then Fail else Done(v, [])
  {
    hide NextToken, ParseValue, Text, Depth, WellFormed;
    var s := Text(v);
    TextNoNul(v);
    ValueToken(v, [], opts.lax);
    ValueReads(v, [], 0, opts);
    assert s + [] == s;
    EndToken(opts.lax);
  }

  lemma EndToken(lax: bool)
    ensures NextToken([], lax) == (End, [])
  {
  }

  // ----- Unicode

  /** A Unicode scalar value. */
  predicate Scalar(c: nat)
  {
    c < 0xD800 || 0xE000 <= c <= 0x10_FFFF
  }

  predicate Continues(b: Byte)
  {
    0x80 <= b < 0xC0
  }

  /** The six bits of a byte that continues a sequence, and the bits of the byte that begins one. */
  function Low(b: Byte, base: nat): nat
    requires b >= base
  {
    b - base
  }

  /** The scalar value whose UTF-8 form, as section 3 of RFC 3629 has it, the bytes are. */
  ghost function Utf8Value(u: seq<Byte>): Option<nat>
  {
    if |u| == 1 && u[0] < 0x80 then Some(u[0])
    else if |u| == 2 && 0xC2 <= u[0] < 0xE0 && Continues(u[1]) then Some(Low(u[0], 0xC0) * 64 + Low(u[1], 0x80))
    else if |u| == 3 && 0xE0 <= u[0] < 0xF0 && Continues(u[1]) && Continues(u[2]) then
      var c := Low(u[0], 0xE0) * 4096 + Low(u[1], 0x80) * 64 + Low(u[2], 0x80);
      if c >= 0x800 && Scalar(c) then Some(c) else None
    else if |u| == 4 && 0xF0 <= u[0] < 0xF5 && Continues(u[1]) && Continues(u[2]) && Continues(u[3]) then
      var c := Low(u[0], 0xF0) * 0x4_0000 + Low(u[1], 0x80) * 4096 + Low(u[2], 0x80) * 64 + Low(u[3], 0x80);
      if 0x1_0000 <= c <= 0x10_FFFF then Some(c) else None
    else None
  }

  lemma Sextets(c: nat)
    ensures c == (c / 64) * 64 + c % 64
    ensures c / 64 == (c / 4096) * 64 + (c / 64) % 64
    ensures c / 4096 == (c / 0x4_0000) * 64 + (c / 4096) % 64
  {
  }

  lemma Utf8Reads(c: nat)
    requires Scalar(c)
    ensures Utf8Value(Utf8(c)) == Some(c)
  {
    hide Utf8Value;
    Sextets(c);
    var p, q, r := c % 64, (c / 64) % 64, (c / 4096) % 64;
    var a, b, d := c / 64, c / 4096, c / 0x4_0000;
    if c <= 0x7F {
      OneReads(c);
    } else if c <= 0x7FF {
      TwoRead(a, p);
    } else if c <= 0xFFFF {
      ThreeRead(b, q, p);
    } else {
      FourRead(d, r, q, p);
    }
  }

  lemma OneReads(c: nat)
    requires c < 0x80
    ensures Utf8Value([c]) == Some(c)
  {
  }

  lemma TwoRead(a: nat, p: nat)
    requires 2 <= a < 32 && p < 64
    ensures Utf8Value([0xC0 + a, 0x80 + p]) == Some(a * 64 + p)
  {
  }

  lemma ThreeRead(b: nat, q: nat, p: nat)
    requires b < 16 && q < 64 && p < 64 && b * 4096 + q * 64 + p >= 0x800 && Scalar(b * 4096 + q * 64 + p)
    ensures Utf8Value([0xE0 + b, 0x80 + q, 0x80 + p]) == Some(b * 4096 + q * 64 + p)
  {
  }

  lemma FourRead(d: nat, r: nat, q: nat, p: nat)
    requires d < 5 && r < 64 && q < 64 && p < 64
    requires 0x1_0000 <= d * 0x4_0000 + r * 4096 + q * 64 + p <= 0x10_FFFF
    ensures Utf8Value([0xF0 + d, 0x80 + r, 0x80 + q, 0x80 + p]) == Some(d * 0x4_0000 + r * 4096 + q * 64 + p)
  {
  }

  function Hex4Text(c: nat): seq<Byte>
    requires c < 0x1_0000
  {
    [92, 117, HexDigit(c / 4096), HexDigit((c / 256) % 16), HexDigit((c / 16) % 16), HexDigit(c % 16)]
  }

  lemma Hex4Reads(p: seq<Byte>, c: nat, t: seq<Byte>)
    requires c < 0x1_0000
    ensures Hex4(p + Hex4Text(c) + t, |p| + 2) == c
    ensures At(p + Hex4Text(c) + t, |p|) == 92 && At(p + Hex4Text(c) + t, |p| + 1) == 117
  {
    var s, k := p + Hex4Text(c) + t, |p|;
    var d, e, f, g := c / 4096, (c / 256) % 16, (c / 16) % 16, c % 16;
    Nibbles(c);
    assert Hex4Text(c) == [92, 117, HexDigit(d), HexDigit(e), HexDigit(f), HexDigit(g)];
    assert s[k] == 92 && s[k + 1] == 117;
    assert s[k + 2] == HexDigit(d) && s[k + 3] == HexDigit(e) && s[k + 4] == HexDigit(f) && s[k + 5] == HexDigit(g);
    HexReads(d);
    HexReads(e);
    HexReads(f);
    HexReads(g);
    hide HexDigit, HexValue, Hex4Text;
  }

  lemma Nibbles(c: nat)
    requires c < 0x1_0000
    ensures c / 4096 < 16
    ensures c == (c / 4096) * 0x1000 + (c / 256) % 16 * 0x100 + (c / 16) % 16 * 0x10 + c % 16
  {
  }

  lemma HexReads(n: nat)
    requires n < 16
    ensures HexValue(HexDigit(n)) == n
  {
  }

  /** Every scalar value can be written as one escape or as a pair of surrogates, and reads as its UTF-8 form. */
  lemma EscapeReads(c: nat, t: seq<Byte>)
    requires Scalar(c)
    ensures c < 0x1_0000 ==> UnicodeEscape(Hex4Text(c) + t) == Some((Utf8(c), 6))
    ensures c >= 0x1_0000 ==>
      var high, low := 0xD800 + (c - 0x1_0000) / 0x400, 0xDC00 + (c - 0x1_0000) % 0x400;
      UnicodeEscape(Hex4Text(high) + Hex4Text(low) + t) == Some((Utf8(c), 12))
  {
    hide Hex4, Utf8, Hex4Text, Scalar;
    if c < 0x1_0000 {
      Hex4Reads([], c, t);
      Alone(Hex4Text(c));
      NoSurrogate(c);
    } else {
      AtMost(c);
      PairReads((c - 0x1_0000) / 0x400, (c - 0x1_0000) % 0x400, t);
    }
  }

  lemma NoSurrogate(c: nat)
    requires Scalar(c)
    ensures !IsHigh(c) && !IsLow(c)
  {
  }

  lemma AtMost(c: nat)
    requires Scalar(c)
    ensures c <= 0x10_FFFF
  {
  }

  lemma PairReads(a: nat, b: nat, t: seq<Byte>)
    requires a < 0x400 && b < 0x400
    ensures UnicodeEscape(Hex4Text(0xD800 + a) + Hex4Text(0xDC00 + b) + t) == Some((Utf8(a * 0x400 + b + 0x1_0000), 12))
  {
    hide Hex4, Utf8, HexDigit;
    var h, l := Hex4Text(0xD800 + a), Hex4Text(0xDC00 + b);
    Hex4Reads([], 0xD800 + a, l + t);
    Hex4Reads(h, 0xDC00 + b, t);
    Alone(h);
    Assoc(h, l, t);
    assert |h| == 6;
    hide Hex4Text, At;
  }

  /** What an escape appends is the UTF-8 form of a scalar value, and so a surrogate that stands alone is refused. */
  lemma EscapeIsScalar(s: seq<Byte>)
    requires UnicodeEscape(s).Some?
    ensures Utf8Value(UnicodeEscape(s).value.0).Some?
    ensures IsHigh(Hex4(s, 2)) ==> UnicodeEscape(s).value.1 == 12 && IsLow(Hex4(s, 8))
    ensures !IsLow(Hex4(s, 2))
  {
    hide Hex4, Utf8, Utf8Value;
    var c := Hex4(s, 2);
    if IsHigh(c) {
      Utf8Reads((c - 0xD800) * 0x400 + (Hex4(s, 8) - 0xDC00) + 0x1_0000);
    } else {
      Utf8Reads(c);
    }
  }
}
