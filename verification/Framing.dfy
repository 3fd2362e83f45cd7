/** Packages on a byte stream: a big-endian length of two bytes, then that many bytes. */
module Framing {
  import opened Bytes

  /** What send_out puts before a message. */
  function Header(n: nat): (h: seq<Byte>)
    requires n <= 0xffff
    ensures |h| == 2 && Length(h) == n
  {
    [n / 256, n % 256]
  }

  function Length(h: seq<Byte>): (n: nat)
    requires |h| >= 2
    ensures n <= 0xffff
  {
    var high: nat := h[0];
    high * 256 + h[1]
  }

  /** The stream begins with a whole package. */
  predicate Complete(s: seq<Byte>)
  {
    |s| >= 2 && |s| >= 2 + Length(s)
  }

  /** The packages of a stream, and the rest behind the last of them. */
  ghost function Packages(s: seq<Byte>): seq<seq<Byte>>
  {
    if Complete(s) then [s[2..2 + Length(s)]] + Packages(s[2 + Length(s)..]) else []
  }

  ghost function Residue(s: seq<Byte>): (r: seq<Byte>)
    ensures !Complete(r)
  {
    if Complete(s) then Residue(s[2 + Length(s)..]) else s
  }

  lemma Unfold(s: seq<Byte>, n: nat)
    requires Complete(s) && n == 2 + Length(s)
    ensures Packages(s) == [s[2..n]] + Packages(s[n..]) && Residue(s) == Residue(s[n..])
  {
  }

  /** Where a stream is cut does not matter, if the rest of the first part goes before the second. */
  lemma {:induction false} Chunks(s: seq<Byte>, t: seq<Byte>)
    ensures Packages(s + t) == Packages(s) + Packages(Residue(s) + t)
    ensures Residue(s + t) == Residue(Residue(s) + t)
  {
    hide Packages, Residue, Length;
    if Complete(s) {
      var n := 2 + Length(s);
      Chunks(s[n..], t);
      SplitAt(s, t, n);
      Unfold(s, n);
      Unfold(s + t, n);
    } else {
      Unfinished(s);
    }
  }

  lemma SplitAt(s: seq<Byte>, t: seq<Byte>, n: nat)
    requires Complete(s) && n == 2 + Length(s)
    ensures (s + t)[n..] == s[n..] + t && (s + t)[2..n] == s[2..n]
    ensures Complete(s + t) && Length(s + t) == Length(s)
  {
  }

  /** One package more in front of a stream. */
  lemma First(h: seq<Byte>, body: seq<Byte>, t: seq<Byte>)
    requires |h| == 2 && Length(h) == |body|
    ensures Packages(h + body + t) == [body] + Packages(t)
    ensures Residue(h + body + t) == Residue(t)
  {
    var s := h + body + t;
    assert Complete(s) && s[2..2 + Length(s)] == body && s[2 + Length(s)..] == t;
  }

  /** The length stands in the first two bytes of a package, the more significant one first. */
  lemma NetworkOrder(a: Byte, b: Byte, t: seq<Byte>)
    ensures var n: nat := 0x100 * (a as nat) + b;
      if |t| < n then Packages([a, b] + t) == [] && Residue([a, b] + t) == [a, b] + t
      else Packages([a, b] + t) == [t[..n]] + Packages(t[n..]) && Residue([a, b] + t) == Residue(t[n..])
  {
    hide Packages, Residue, Length;
    var n: nat := 0x100 * (a as nat) + b;
    LengthIs(a, b, t);
    if |t| >= n {
      LengthIs(a, b, []);
      assert [a, b] + [] == [a, b];
      First([a, b], t[..n], t[n..]);
      Cut([a, b], t, n);
    } else {
      Unfinished([a, b] + t);
    }
  }

  lemma Cut(h: seq<Byte>, t: seq<Byte>, n: nat)
    requires n <= |t|
    ensures h + t == h + t[..n] + t[n..]
  {
  }

  lemma LengthIs(a: Byte, b: Byte, t: seq<Byte>)
    ensures Length([a, b] + t) == 0x100 * (a as nat) + b
  {
  }

  lemma Unfinished(s: seq<Byte>)
    requires !Complete(s)
    ensures Packages(s) == [] && Residue(s) == s
  {
  }

  /** What send_out writes for a series of messages. */
  ghost function Sent(msgs: seq<seq<Byte>>): seq<Byte>
    requires forall k :: 0 <= k < |msgs| ==> |msgs[k]| <= 0xffff
  {
    if msgs == [] then [] else Header(|msgs[0]|) + msgs[0] + Sent(msgs[1..])
  }

  /** Reading undoes writing. */
  lemma {:induction false} PackagesOfSent(msgs: seq<seq<Byte>>)
    requires forall k :: 0 <= k < |msgs| ==> |msgs[k]| <= 0xffff
    ensures Packages(Sent(msgs)) == msgs && Residue(Sent(msgs)) == []
  {
    if msgs != [] {
      PackagesOfSent(msgs[1..]);
      First(Header(|msgs[0]|), msgs[0], Sent(msgs[1..]));
    }
  }

  /** A message goes out behind its length, the more significant byte first. */
  lemma SentIs(m: seq<Byte>, msgs: seq<seq<Byte>>)
    requires |m| <= 0xffff && forall k :: 0 <= k < |msgs| ==> |msgs[k]| <= 0xffff
    ensures Sent([m] + msgs) == [|m| / 0x100, |m| % 0x100] + m + Sent(msgs)
  {
    assert ([m] + msgs)[1..] == msgs;
  }

  lemma {:induction false} SentMore(msgs: seq<seq<Byte>>, m: seq<Byte>)
    requires |m| <= 0xffff && forall k :: 0 <= k < |msgs| ==> |msgs[k]| <= 0xffff
    ensures Sent(msgs + [m]) == Sent(msgs) + Header(|m|) + m
  {
    if msgs == [] {
      assert Sent([m]) == Header(|m|) + m + Sent([]);
    } else {
      SentMore(msgs[1..], m);
      var all, h := msgs + [m], Header(|msgs[0]|) + msgs[0];
      assert all[1..] == msgs[1..] + [m];
      assert Sent(all) == h + Sent(all[1..]) && Sent(msgs) == h + Sent(msgs[1..]);
      hide Header, Sent;
    }
  }
}
