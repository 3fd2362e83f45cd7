/** The encoder of lua_cjson.c on its buffer. */
module JsonEncode {
  import opened Bytes
  import opened JsonBuffer
  import opened JsonRoundTrip
  import opened JsonTables
  import opened JsonValues

  /** FPCONV_G_FMT_BUFSIZE */
  const NUMBERROOM: nat := 32

  lemma QuotedFirst(s: seq<Byte>)
    requires s != []
    ensures QuotedAll(s) == Quoted(s[0]) + QuotedAll(s[1..])
  {
    hide Quoted;
  }

  lemma NoneQuoted(b: seq<Byte>)
    ensures QuotedAll([] + b) == QuotedAll([]) + QuotedAll(b)
  {
    assert [] + b == b;
  }

  lemma {:induction false} QuotedConcat(a: seq<Byte>, b: seq<Byte>)
    ensures QuotedAll(a + b) == QuotedAll(a) + QuotedAll(b)
  {
    hide Quoted, QuotedAll;
    if a == [] {
      NoneQuoted(b);
    } else {
      QuotedConcat(a[1..], b);
      QuotedFirst(a);
      QuotedFirst(a + b);
      assert (a + b)[1..] == a[1..] + b;
      Assoc(Quoted(a[0]), QuotedAll(a[1..]), QuotedAll(b));
    }
  }

  lemma QuotedSoFar(s: seq<Byte>, i: nat)
    requires i < |s|
    ensures QuotedAll(s[..i + 1]) == QuotedAll(s[..i]) + Quoted(s[i])
  {
    QuotedConcat(s[..i], [s[i]]);
    assert s[..i + 1] == s[..i] + [s[i]];
    assert QuotedAll([s[i]]) == Quoted(s[i]) + QuotedAll([]);
    hide Quoted;
  }

  /** The body of the loop of json_append_string. */
  method AppendByte(json: StrBuf, b: Byte)
    requires json.Valid() && json.EmptyLength() >= 6
    modifies json, json.buf
    ensures json.Valid() && json.Contents() == old(json.Contents()) + Quoted(b)
    ensures json.buf == old(json.buf) && json.EmptyLength() >= old(json.EmptyLength()) - 6
  {
    var escaped := Escaped(b);
    if escaped != [] {
      json.AppendString(escaped);
    } else {
      json.AppendCharUnsafe(b);
    }
  }

  /** Something between an opening and a closing byte. */
  lemma Enclosed(a: seq<Byte>, open: Byte, body: seq<Byte>, close: Byte)
    ensures a + [open] + body + [close] == a + ([open] + body + [close])
  {
  }

  /** json_append_string: six bytes for each of the string and two more are room enough for the unchecked appends. */
  method AppendString(json: StrBuf, s: seq<Byte>)
    requires json.Valid()
    modifies json, json.buf
    ensures json.Valid() && json.Contents() == old(json.Contents()) + StringText(s)
    ensures json.buf == old(json.buf) || fresh(json.buf)
  {
    hide Quoted, QuotedAll, StrBuf.Contents;
    json.EnsureEmptyLength(6 * |s| + 2);
    json.AppendCharUnsafe(34);
    ghost var before := json.Contents();
    Start(before);
    for i := 0 to |s|
      invariant json.Valid() && json.EmptyLength() >= 6 * (|s| - i) + 1
      invariant json.Contents() == before + QuotedAll(s[..i])
      invariant json.buf == old(json.buf) || fresh(json.buf)
    {
      QuotedSoFar(s, i);
      Assoc(before, QuotedAll(s[..i]), Quoted(s[i]));
      AppendByte(json, s[i]);
    }
    assert s[..|s|] == s;
    json.AppendCharUnsafe(34);
    Enclosed(old(json.Contents()), 34, QuotedAll(s), 34);
  }

  lemma Start(before: seq<Byte>)
    ensures before + QuotedAll([]) == before
  {
  }

  /** A number of d digits is at least 10 to the d - 1. */
  lemma {:induction false} DigitsLength(n: nat, d: nat)
    requires n < Ten(d) && d > 0
    ensures |Digits(n)| <= d
  {
    if n >= 10 {
      DigitsLength(n / 10, d - 1);
    }
  }

  function Ten(d: nat): (p: nat)
    ensures p > 0
  {
    if d == 0 then 1 else 10 * Ten(d - 1)
  }

  lemma NineteenDigits()
    ensures Ten(19) == 1_0000_0000_0000_0000_000
  {
    assert Ten(4) == 1_0000;
    assert Ten(8) == 1_0000_0000;
    assert Ten(12) == 1_0000_0000_0000;
    assert Ten(16) == 1_0000_0000_0000_0000;
  }

  /** json_append_number for an integer: sprintf with its NUL stays within the room reserved. */
  method AppendInteger(json: StrBuf, n: int)
    requires json.Valid() && -0x8000_0000_0000_0000 <= n <= 0x7fff_ffff_ffff_ffff
    modifies json, json.buf
    ensures json.Valid() && json.Contents() == old(json.Contents()) + Decimal(n)
    ensures json.buf == old(json.buf) || fresh(json.buf)
  {
    hide Digits;
    json.EnsureEmptyLength(NUMBERROOM);
    NineteenDigits();
    DigitsLength(if n < 0 then -n else n, 19);
    assert |Decimal(n)| + 1 <= NUMBERROOM;
    json.AppendMemUnsafe(Decimal(n));
  }

  /** One round of either loop. */
  ghost function ItemText(v: Value, comma: bool): seq<Byte>
  {
    (if comma then [44] else []) + Text(v)
  }

  ghost function MemberText(m: Member, comma: bool): seq<Byte>
  {
    (if comma then [44] else []) + (StringText(m.key) + ([58] + Text(m.value)))
  }

  /** What is still to be written of a series of items when i are done. */
  ghost function ItemsLeft(items: seq<Value>, i: nat): seq<Byte>
    requires i <= |items|
  {
    if i == |items| then [] else (if i > 0 then [44] else []) + ItemsText(items[i..])
  }

  lemma ItemsLeftStep(items: seq<Value>, i: nat)
    requires i < |items|
    ensures ItemsLeft(items, i) == ItemText(items[i], i > 0) + ItemsLeft(items, i + 1)
  {
    assert items[i..][0] == items[i] && items[i..][1..] == items[i + 1..];
    hide Text;
  }

  ghost function MembersLeft(ms: seq<Member>, i: nat): seq<Byte>
    requires i <= |ms|
  {
    if i == |ms| then [] else (if i > 0 then [44] else []) + MembersText(ms[i..])
  }

  lemma MembersLeftStep(ms: seq<Member>, i: nat)
    requires i < |ms|
    ensures MembersLeft(ms, i) == MemberText(ms[i], i > 0) + MembersLeft(ms, i + 1)
  {
    assert ms[i..][0] == ms[i] && ms[i..][1..] == ms[i + 1..];
    hide Text, StringText;
  }

  lemma {:induction false} ItemsDepthIs(items: seq<Value>, d: nat)
    ensures ItemsDepth(items) <= d <==> forall k :: 0 <= k < |items| ==> Depth(items[k]) <= d
  {
    if items != [] {
      ItemsDepthIs(items[1..], d);
      assert forall k :: 0 <= k < |items[1..]| ==> items[1..][k] == items[k + 1];
      assert forall k :: 0 < k < |items| ==> items[k] == items[1..][k - 1];
      hide Depth;
    }
  }

  lemma {:induction false} MembersDepthIs(ms: seq<Member>, d: nat)
    ensures MembersDepth(ms) <= d <==> forall k :: 0 <= k < |ms| ==> Depth(ms[k].value) <= d
  {
    if ms != [] {
      MembersDepthIs(ms[1..], d);
      assert forall k :: 0 <= k < |ms[1..]| ==> ms[1..][k] == ms[k + 1];
      assert forall k :: 0 < k < |ms| ==> ms[k] == ms[1..][k - 1];
      hide Depth;
    }
  }

  class Encoder {
    /** encode_buf, encode_max_depth and the sparse-array options. */
    const json: StrBuf
    const maxDepth: nat
    const sparse: Sparse

    constructor (maxDepth: nat, sparse: Sparse)
      ensures json.Valid() && this.maxDepth == maxDepth && fresh(json) && fresh(json.buf)
    {
      this.maxDepth, this.sparse := maxDepth, sparse;
      json := new StrBuf(0, 2);
    }

    /** The body of the loop of json_append_array. */
    method AppendItem(v: Value, comma: bool, depth: nat) returns (ok: bool)
      requires json.Valid() && WellFormed(v) && depth <= maxDepth
      modifies json, json.buf
      ensures json.Valid() && (json.buf == old(json.buf) || fresh(json.buf))
      ensures ok <==> depth + Depth(v) <= maxDepth
      ensures ok ==> json.Contents() == old(json.Contents()) + ItemText(v, comma)
      decreases v, 3
    {
      hide Text, Depth, StrBuf.Contents, WellFormed;
      if comma {
        json.AppendChar(44);
      }
      Assoc(old(json.Contents()), [44], Text(v));
      assert [] + Text(v) == Text(v);
      ok := AppendData(v, depth);
    }

    /** json_append_array */
    method AppendArray(v: Value, depth: nat) returns (ok: bool)
      requires json.Valid() && v.Arr? && WellFormed(v) && depth <= maxDepth
      modifies json, json.buf
      ensures json.Valid() && (json.buf == old(json.buf) || fresh(json.buf))
      ensures ok <==> depth + ItemsDepth(v.items) <= maxDepth
      ensures ok ==> json.Contents() == old(json.Contents()) + Text(v)
      decreases v, 0
    {
      hide Text, ItemsText, Depth, ItemsDepth, ItemText, StrBuf.Contents;
      var items := v.items;
      json.AppendChar(91);
      ghost var all := json.Contents() + ItemsText(items);
      ItemsDepthIs(items, maxDepth - depth);
      Beginning(items, []);
      var comma := false;
      for i := 0 to |items|
        invariant json.Valid() && (json.buf == old(json.buf) || fresh(json.buf)) && comma == (i > 0)
        invariant json.Contents() + ItemsLeft(items, i) == all
        invariant forall k :: 0 <= k < i ==> depth + Depth(items[k]) <= maxDepth
      {
        ItemsLeftStep(items, i);
        Assoc(json.Contents(), ItemText(items[i], comma), ItemsLeft(items, i + 1));
        ok := AppendItem(items[i], comma, depth);
        if !ok {
          return;
        }
        comma := true;
      }
      Ending(json.Contents());
      json.AppendChar(93);
      TextIs(v);
      Enclosed(old(json.Contents()), 91, ItemsText(items), 93);
      ok := true;
    }

    /** The body of the loop of json_append_object. */
    method AppendMember(m: Member, comma: bool, depth: nat) returns (ok: bool)
      requires json.Valid() && WellFormed(m.value) && depth <= maxDepth
      modifies json, json.buf
      ensures json.Valid() && (json.buf == old(json.buf) || fresh(json.buf))
      ensures ok <==> depth + Depth(m.value) <= maxDepth
      ensures ok ==> json.Contents() == old(json.Contents()) + MemberText(m, comma)
      decreases m, 3
    {
      hide Text, Depth, StrBuf.Contents, WellFormed, StringText;
      if comma {
        json.AppendChar(44);
      }
      AppendString(json, m.key);
      json.AppendChar(58);
      ok := AppendData(m.value, depth);
      MemberJoin(old(json.Contents()), if comma then [44] else [], StringText(m.key), Text(m.value));
    }

    /** json_append_object, for string keys. */
    method AppendObject(v: Value, depth: nat) returns (ok: bool)
      requires json.Valid() && v.Obj? && WellFormed(v) && depth <= maxDepth
      modifies json, json.buf
      ensures json.Valid() && (json.buf == old(json.buf) || fresh(json.buf))
      ensures ok <==> depth + MembersDepth(v.members) <= maxDepth
      ensures ok ==> json.Contents() == old(json.Contents()) + Text(v)
      decreases v, 0
    {
      hide Text, MembersText, Depth, MembersDepth, MemberText, StrBuf.Contents;
      var ms := v.members;
      json.AppendChar(123);
      ghost var all := json.Contents() + MembersText(ms);
      MembersDepthIs(ms, maxDepth - depth);
      Beginning([], ms);
      var comma := false;
      for i := 0 to |ms|
        invariant json.Valid() && (json.buf == old(json.buf) || fresh(json.buf)) && comma == (i > 0)
        invariant json.Contents() + MembersLeft(ms, i) == all
        invariant forall k :: 0 <= k < i ==> depth + Depth(ms[k].value) <= maxDepth
      {
        MembersLeftStep(ms, i);
        Assoc(json.Contents(), MemberText(ms[i], comma), MembersLeft(ms, i + 1));
        ok := AppendMember(ms[i], comma, depth);
        if !ok {
          return;
        }
        comma := true;
      }
      Ending(json.Contents());
      json.AppendChar(125);
      TextIs(v);
      Enclosed(old(json.Contents()), 123, MembersText(ms), 125);
      ok := true;
    }

    /** json_append_data; ok is false where the original raises the error for excessive nesting. */
    method AppendData(v: Value, depth: nat) returns (ok: bool)
      requires json.Valid() && WellFormed(v) && depth <= maxDepth
      modifies json, json.buf
      ensures json.Valid() && (json.buf == old(json.buf) || fresh(json.buf))
      ensures ok <==> depth + Depth(v) <= maxDepth
      ensures ok ==> json.Contents() == old(json.Contents()) + Text(v)
      decreases v, 2
    {
      ok := true;
      match v
      case Str(s) => AppendString(json, s);
      case Int(n) => AppendInteger(json, n);
      case Bool(b) => json.AppendMem(if b then TRUE else FALSE);
      case Null => json.AppendMem(NULL);
      case _ => ok := AppendTable(v, depth + 1);
    }

    /** The case of a table: its keys tell an array from an object. */
    method AppendTable(v: Value, depth: nat) returns (ok: bool)
      requires json.Valid() && (v.Arr? || v.Obj?) && WellFormed(v)
      modifies json, json.buf
      ensures json.Valid() && (json.buf == old(json.buf) || fresh(json.buf))
      ensures ok <==> depth + Depth(v) - 1 <= maxDepth
      ensures ok ==> json.Contents() == old(json.Contents()) + Text(v)
      decreases v, 1
    {
      if depth > maxDepth {
        return false;
      }
      hide Text, WellFormed, LengthOf, StrBuf.Contents;
      ArraysAreTold(v, sparse);
      var len := ArrayLength(KeysOf(v), sparse);
      if len.Length? && len.n > 0 {
        ok := AppendArray(v, depth);
      } else {
        ok := AppendObject(v, depth);
      }
    }

    /** json_encode */
    method Encode(v: Value) returns (ok: bool, text: seq<Byte>)
      requires json.Valid() && WellFormed(v)
      modifies json, json.buf
      ensures json.Valid() && (json.buf == old(json.buf) || fresh(json.buf))
      ensures ok <==> Depth(v) <= maxDepth
      ensures ok ==> text == Text(v) && Printable(text)
    {
      TextPrintable(v);
      json.Reset();
      ok := AppendData(v, 0);
      text := json.buf[..json.length];
    }
  }

  lemma TextIs(v: Value)
    ensures v.Arr? ==> Text(v) == [91] + ItemsText(v.items) + [93]
    ensures v.Obj? ==> Text(v) == [123] + MembersText(v.members) + [125]
  {
  }

  lemma Beginning(items: seq<Value>, ms: seq<Member>)
    ensures ItemsLeft(items, 0) == ItemsText(items) && MembersLeft(ms, 0) == MembersText(ms)
  {
    assert items[0..] == items && ms[0..] == ms;
  }

  lemma Ending(a: seq<Byte>)
    ensures a + [] == a
  {
  }

  lemma MemberJoin(a: seq<Byte>, comma: seq<Byte>, key: seq<Byte>, text: seq<Byte>)
    ensures a + comma + key + [58] + text == a + (comma + (key + ([58] + text)))
    ensures a + [] == a
  {
  }
}
