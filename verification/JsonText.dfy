/** What the texts of the encoder look like: strings by section 7 of RFC 8259, and the words for the constants. */
module JsonText {
  import opened Bytes
  import opened JsonEncode
  import opened JsonParsing
  import opened JsonRoundTrip
  import opened JsonValues

  predicate HexByte(b: Byte)
  {
    48 <= b <= 57 || 65 <= b <= 70 || 97 <= b <= 102
  }

  /** The characters between the quotes of a string: control bytes, quotes and backslashes stand in escapes only. */
  predicate Chars(t: seq<Byte>)
  {
    if t == [] then true
    else if t[0] != 92 then t[0] >= 32 && t[0] != 34 && Chars(t[1..])
    else if |t| < 2 then false
    else if t[1] == 117 then
      |t| >= 6 && HexByte(t[2]) && HexByte(t[3]) && HexByte(t[4]) && HexByte(t[5]) && Chars(t[6..])
    else
      (t[1] == 34 || t[1] == 92 || t[1] == 47 || t[1] == 98 || t[1] == 102 || t[1] == 110 || t[1] == 114 || t[1] == 116) &&
      Chars(t[2..])
  }

  /** The encoder keeps to it, for all bytes. */
  lemma {:induction false} QuotedIsChars(s: seq<Byte>)
    ensures Chars(QuotedAll(s))
  {
    if s != [] {
      QuotedIsChars(s[1..]);
      OneIsChars(s[0], QuotedAll(s[1..]));
    }
  }

  lemma OneIsChars(b: Byte, t: seq<Byte>)
    requires Chars(t)
    ensures Chars(Quoted(b) + t)
  {
    assert (Quoted(b) + t)[|Quoted(b)|..] == t;
  }

  /** Which escape is written for a byte: one of two bytes, one of six, or none. */
  lemma EscapesAre(b: Byte)
    ensures b == 8 ==> StringText([b]) == [34, 92, 98, 34]
    ensures b == 9 ==> StringText([b]) == [34, 92, 116, 34]
    ensures b == 10 ==> StringText([b]) == [34, 92, 110, 34]
    ensures b == 12 ==> StringText([b]) == [34, 92, 102, 34]
    ensures b == 13 ==> StringText([b]) == [34, 92, 114, 34]
    ensures b == 34 || b == 47 || b == 92 ==> StringText([b]) == [34, 92, b, 34]
    ensures b < 8 ==> StringText([b]) == [34, 92, 117, 48, 48, 48, 48 + b, 34]
    ensures b == 11 ==> StringText([b]) == [34, 92, 117, 48, 48, 48, 98, 34]
    ensures b == 14 || b == 15 ==> StringText([b]) == [34, 92, 117, 48, 48, 48, 87 + b, 34]
    ensures 16 <= b < 26 ==> StringText([b]) == [34, 92, 117, 48, 48, 49, 32 + b, 34]
    ensures 26 <= b < 32 ==> StringText([b]) == [34, 92, 117, 48, 48, 49, 71 + b, 34]
    ensures b == 127 ==> StringText([b]) == [34, 92, 117, 48, 48, 55, 102, 34]
    ensures b >= 32 && b != 34 && b != 47 && b != 92 && b != 127 ==> StringText([b]) == [34, b, 34]
  {
    OneQuoted(b);
  }

  lemma OneQuoted(b: Byte)
    ensures QuotedAll([b]) == Quoted(b)
  {
    hide Quoted;
    assert [b][1..] == [] && QuotedAll([]) == [];
  }

  /** The escapes of a string are those of its bytes, one behind the other. */
  lemma StringJoins(s: seq<Byte>, t: seq<Byte>)
    ensures StringText(s + t) == [34] + QuotedAll(s) + QuotedAll(t) + [34]
  {
    QuotedConcat(s, t);
    hide QuotedAll;
    Assoc([34], QuotedAll(s), QuotedAll(t));
  }

  /** null, true and false. */
  lemma WordsAre()
    ensures Text(Null) == [110, 117, 108, 108]
    ensures Text(Bool(true)) == [116, 114, 117, 101] && Text(Bool(false)) == [102, 97, 108, 115, 101]
  {
  }

  /** Escapes of two bytes read as the byte they stand for, in front of anything, and no others of two bytes are read. */
  lemma EscapesRead(b: Byte, t: seq<Byte>)
    requires b != 117
    ensures StringBody([92, b] + t) ==
      if b == 34 || b == 92 || b == 47 then Prepend([b], StringBody(t))
      else if b == 98 then Prepend([8], StringBody(t))
      else if b == 116 then Prepend([9], StringBody(t))
      else if b == 110 then Prepend([10], StringBody(t))
      else if b == 102 then Prepend([12], StringBody(t))
      else if b == 114 then Prepend([13], StringBody(t))
      else None
  {
    assert ([92, b] + t)[2..] == t;
  }

  /** Hexadecimal digits of either case. */
  lemma HexValues(b: Byte)
    ensures 48 <= b <= 57 ==> HexValue(b) == b - 48
    ensures 65 <= b <= 70 ==> HexValue(b) == 10 + (b - 65)
    ensures 97 <= b <= 102 ==> HexValue(b) == 10 + (b - 97)
    ensures HexValue(b) == -1 <==> !HexByte(b)
  {
  }

  /** A text that begins like UTF-16 or UTF-32 is refused. */
  lemma NoWideText(s: seq<Byte>, opts: Options)
    requires |s| >= 2 && (s[0] == 0 || s[1] == 0)
    ensures Decode(s, opts) == Fail
  {
  }

  // ----- keys that come twice

  /** The value of the last of the members with a key. */
  ghost function Lookup(ms: seq<Member>, key: seq<Byte>): Option<Value>
  {
    if ms == [] then None
    else if ms[|ms| - 1].key == key then Some(ms[|ms| - 1].value)
    else Lookup(ms[..|ms| - 1], key)
  }

  ghost predicate KeysDiffer(ms: seq<Member>)
  {
    forall j, k :: 0 <= j < k < |ms| ==> ms[j].key != ms[k].key
  }

  lemma {:induction false} LookupAt(ms: seq<Member>, k: nat)
    requires KeysDiffer(ms) && k < |ms|
    ensures Lookup(ms, ms[k].key) == Some(ms[k].value)
  {
    if k < |ms| - 1 {
      LookupAt(ms[..|ms| - 1], k);
    }
  }

  lemma {:induction false} LookupNone(ms: seq<Member>, key: seq<Byte>)
    ensures Lookup(ms, key).None? <==> forall k :: 0 <= k < |ms| ==> ms[k].key != key
  {
    if ms != [] {
      LookupNone(ms[..|ms| - 1], key);
    }
  }

  /** Where Put puts a member. */
  lemma {:induction false} PutAt(ms: seq<Member>, key: seq<Byte>, v: Value) returns (k: nat)
    ensures k <= |ms| && forall j :: 0 <= j < k ==> ms[j].key != key
    ensures k < |ms| ==> ms[k].key == key && Put(ms, key, v) == ms[k := Member(key, v)]
    ensures k == |ms| ==> Put(ms, key, v) == ms + [Member(key, v)]
  {
    if ms == [] || ms[0].key == key {
      k := 0;
      if ms != [] {
        assert ms[0 := Member(key, v)] == [Member(key, v)] + ms[1..];
      }
    } else {
      var i := PutAt(ms[1..], key, v);
      k := i + 1;
      if k < |ms| {
        assert ms[k := Member(key, v)] == [ms[0]] + ms[1..][i := Member(key, v)];
      } else {
        assert ms == [ms[0]] + ms[1..];
      }
    }
  }

  /** A key that is there already gets the new value, and all others keep theirs: the last of two equal keys wins. */
  lemma PutWins(ms: seq<Member>, key: seq<Byte>, v: Value, other: seq<Byte>)
    requires KeysDiffer(ms)
    ensures KeysDiffer(Put(ms, key, v))
    ensures Lookup(Put(ms, key, v), other) == if other == key then Some(v) else Lookup(ms, other)
  {
    var k := PutAt(ms, key, v);
    var ns := Put(ms, key, v);
    hide Put, Lookup;
    if other == key {
      LookupAt(ns, k);
    } else {
      LookupNone(ms, other);
      LookupNone(ns, other);
      if j: nat :| j < |ms| && ms[j].key == other {
        LookupAt(ms, j);
        LookupAt(ns, j);
      } else {
        assert forall j :: 0 <= j < |ns| ==> ns[j].key == (if j < |ms| then ms[j].key else key);
      }
    }
  }

  /** So it is for a whole object: a key has the value that came with it last. */
  lemma {:induction false} LastKeyWins(acc: seq<Member>, ms: seq<Member>, key: seq<Byte>)
    requires KeysDiffer(acc)
    ensures KeysDiffer(PutAll(acc, ms))
    ensures Lookup(PutAll(acc, ms), key) == if Lookup(ms, key).None? then Lookup(acc, key) else Lookup(ms, key)
    decreases ms
  {
    if ms != [] {
      var next := Put(acc, ms[0].key, ms[0].value);
      PutWins(acc, ms[0].key, ms[0].value, key);
      LastKeyWins(next, ms[1..], key);
      LookupFirst(ms, key);
    }
  }

  lemma {:induction false} LookupFirst(ms: seq<Member>, key: seq<Byte>)
    requires ms != []
    ensures Lookup(ms, key) ==
      if !Lookup(ms[1..], key).None? then Lookup(ms[1..], key)
      else if ms[0].key == key then Some(ms[0].value) else None
  {
    var n := |ms| - 1;
    if n > 0 {
      assert ms[1..][..n - 1] == ms[..n][1..];
      if ms[n].key != key {
        LookupFirst(ms[..n], key);
      }
    } else {
      assert ms[..0] == [] && ms[1..] == [];
    }
  }
}
