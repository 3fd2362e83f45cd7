/** What lua_cjson.c converts: Lua values, and the JSON text it writes for them. */
module JsonValues {
  import opened Bytes

  /**
   Lua data as the encoder sees them. Null is the null pointer the decoder uses; a table is an array or
   an object, and the empty table counts as an object. The members of an object stand in the order in which
   the table is traversed.
   */
  datatype Value =
    | Null
    | Bool(b: bool)
    | Int(n: int)
    | Str(s: seq<Byte>)
    | Arr(items: seq<Value>)
    | Obj(members: seq<Member>)

  datatype Member = Member(key: seq<Byte>, value: Value)

  /** Arrays have items, objects no key twice, and integers 64 bits. */
  ghost predicate WellFormed(v: Value)
    decreases v
  {
    match v
    case Null => true
    case Bool(_) => true
    case Int(n) => -0x8000_0000_0000_0000 <= n <= 0x7fff_ffff_ffff_ffff
    case Str(_) => true
    case Arr(items) => items != [] && forall k :: 0 <= k < |items| ==> WellFormed(items[k])
    case Obj(ms) =>
      && (forall k :: 0 <= k < |ms| ==> WellFormed(ms[k].value))
      && forall j, k :: 0 <= j < k < |ms| ==> ms[j].key != ms[k].key
  }

  // ----- text

  /** The integer as %lld prints it. */
  function Decimal(n: int): seq<Byte>
  {
    if n < 0 then [45] + Digits(-n) else Digits(n)
  }

  function Digits(n: nat): (s: seq<Byte>)
    ensures s != []
  {
    if n < 10 then [48 + n] else Digits(n / 10) + [48 + n % 10]
  }

  function HexDigit(n: nat): Byte
    requires n < 16
  {
    if n < 10 then 48 + n else 87 + n
  }

  /** char2escape: the escape sequence of a byte, if it needs one. */
  function Escaped(b: Byte): (s: seq<Byte>)
    ensures |s| == 0 || |s| == 2 || |s| == 6
  {
    if b == 8 then [92, 98]
    else if b == 9 then [92, 116]
    else if b == 10 then [92, 110]
    else if b == 12 then [92, 102]
    else if b == 13 then [92, 114]
    else if b < 32 || b == 127 then [92, 117, 48, 48, HexDigit(b / 16), HexDigit(b % 16)]
    else if b == 34 || b == 47 || b == 92 then [92, b]
    else []
  }

  /** One byte of a string in the text. */
  function Quoted(b: Byte): (s: seq<Byte>)
    ensures 1 <= |s| <= 6
  {
    if Escaped(b) == [] then [b] else Escaped(b)
  }

  function QuotedAll(s: seq<Byte>): (t: seq<Byte>)
    ensures |t| <= 6 * |s|
  {
    if s == [] then [] else Quoted(s[0]) + QuotedAll(s[1..])
  }

  const TRUE: seq<Byte> := [116, 114, 117, 101]
  const FALSE: seq<Byte> := [102, 97, 108, 115, 101]
  const NULL: seq<Byte> := [110, 117, 108, 108]

  function Text(v: Value): seq<Byte>
    decreases v
  {
    match v
    case Null => NULL
    case Bool(b) => if b then TRUE else FALSE
    case Int(n) => Decimal(n)
    case Str(s) => StringText(s)
    case Arr(items) => [91] + ItemsText(items) + [93]
    case Obj(ms) => [123] + MembersText(ms) + [125]
  }

  function StringText(s: seq<Byte>): seq<Byte>
  {
    [34] + QuotedAll(s) + [34]
  }

  function ItemsText(items: seq<Value>): seq<Byte>
    decreases items
  {
    if items == [] then []
    else Text(items[0]) + if |items| == 1 then [] else [44] + ItemsText(items[1..])
  }

  function MembersText(ms: seq<Member>): seq<Byte>
    decreases ms
  {
    if ms == [] then []
    else
      StringText(ms[0].key) + [58] + Text(ms[0].value) +
      if |ms| == 1 then [] else [44] + MembersText(ms[1..])
  }

  /** How deep tables are nested. */
  function Depth(v: Value): nat
    decreases v
  {
    match v
    case Arr(items) => 1 + ItemsDepth(items)
    case Obj(ms) => 1 + MembersDepth(ms)
    case _ => 0
  }

  function ItemsDepth(items: seq<Value>): nat
    decreases items
  {
    if items == [] then 0 else Max(Depth(items[0]), ItemsDepth(items[1..]))
  }

  function MembersDepth(ms: seq<Member>): nat
    decreases ms
  {
    if ms == [] then 0 else Max(Depth(ms[0].value), MembersDepth(ms[1..]))
  }

  function Max(a: nat, b: nat): nat
  {
    if a < b then b else a
  }
}
