/**
 WebSocket frames as lua-websocketnetpack.c reads and writes them
 (sections 5.2 and 5.3 of RFC 6455), and what a byte stream of them carries.
 */
module WsFrames {
  import opened Arith
  import opened Bytes

  /** MAX_PACKSIZE */
  const MAXPACK: nat := 10240

  // ----- masking

  /** Exclusive or, bit by bit. */
  function Xor(a: nat, b: nat): nat
  {
    if a == 0 && b == 0 then 0 else 2 * Xor(a / 2, b / 2) + (a % 2 + b % 2) % 2
  }

  lemma {:induction false} XorBound(a: nat, b: nat, k: nat)
    requires a < Two(k) && b < Two(k)
    ensures Xor(a, b) < Two(k)
  {
    if k > 0 {
      XorBound(a / 2, b / 2, k - 1);
    }
  }

  function Two(k: nat): (p: nat)
    ensures p > 0
  {
    if k == 0 then 1 else 2 * Two(k - 1)
  }

  lemma XorStep(a: nat, b: nat)
    ensures Xor(a, b) / 2 == Xor(a / 2, b / 2) && Xor(a, b) % 2 == (a % 2 + b % 2) % 2
  {
  }

  lemma Parity(p: nat, q: nat)
    requires p < 2 && q < 2
    ensures ((p + q) % 2 + q) % 2 == p
  {
  }

  lemma {:induction false} XorTwice(a: nat, b: nat)
    ensures Xor(Xor(a, b), b) == a
  {
    if a != 0 || b != 0 {
      XorTwice(a / 2, b / 2);
      XorStep(a, b);
      XorStep(Xor(a, b), b);
      Parity(a % 2, b % 2);
      hide Xor;
      assert Xor(Xor(a, b), b) == 2 * (a / 2) + a % 2;
    }
  }

  /** The k-th binary digit. */
  function Bit(n: nat, k: nat): nat
  {
    if k == 0 then n % 2 else Bit(n / 2, k - 1)
  }

  /** A bit of the exclusive or is set exactly if the two bits differ. */
  lemma {:induction false} XorBits(a: nat, b: nat, k: nat)
    ensures Bit(Xor(a, b), k) == if Bit(a, k) == Bit(b, k) then 0 else 1
  {
    XorStep(a, b);
    hide Xor;
    if k > 0 {
      XorBits(a / 2, b / 2, k - 1);
    }
  }

  function XorByte(a: Byte, b: Byte): (c: Byte)
    ensures c == Xor(a, b)
  {
    assert Two(8) == 256;
    XorBound(a, b, 8);
    Xor(a, b)
  }

  type Mask = m: seq<Byte> | m == [] || |m| == 4 witness []

  function MaskByte(b: Byte, mask: Mask, position: nat): Byte
    requires mask != []
  {
    XorByte(b, mask[position % 4])
  }

  /** The bytes of a payload from position phase on, under a mask; no mask leaves them alone. */
  function Masked(s: seq<Byte>, mask: Mask, phase: nat): (t: seq<Byte>)
    ensures |t| == |s|
    ensures mask == [] ==> t == s
    ensures mask != [] ==> forall k :: 0 <= k < |s| ==> t[k] == MaskByte(s[k], mask, k + phase)
  {
    if mask == [] then s else seq(|s|, k requires 0 <= k < |s| => MaskByte(s[k], mask, k + phase))
  }

  /** How a sender masks by section 5.3 of RFC 6455: byte k of the payload with byte k mod 4 of the mask. */
  function SentMasked(p: seq<Byte>, mask: Mask): (t: seq<Byte>)
    ensures |t| == |p|
  {
    if mask == [] then p else seq(|p|, k requires 0 <= k < |p| => XorByte(p[k], mask[k % 4]))
  }

  /** The receiver takes the same bytes of the mask. */
  lemma SenderMasks(p: seq<Byte>, mask: Mask)
    ensures SentMasked(p, mask) == Masked(p, mask, 0)
  {
  }

  /** Byte for byte s under a mask, from position phase on. */
  ghost predicate Xored(t: seq<Byte>, s: seq<Byte>, mask: Mask, phase: nat)
    requires mask != []
  {
    |t| == |s| && forall k :: 0 <= k < |s| ==> t[k] == Xor(s[k], mask[(k + phase) % 4])
  }

  lemma MaskedIsXored(s: seq<Byte>, mask: Mask, phase: nat)
    requires mask != []
    ensures Xored(Masked(s, mask, phase), s, mask, phase)
  {
    hide Xor;
  }

  /** Unmasking undoes masking. */
  lemma MaskedTwice(s: seq<Byte>, mask: Mask, phase: nat)
    ensures Masked(Masked(s, mask, phase), mask, phase) == s
  {
    if mask != [] {
      forall k | 0 <= k < |s| ensures Masked(Masked(s, mask, phase), mask, phase)[k] == s[k] {
        XorTwice(s[k], mask[(k + phase) % 4]);
      }
    }
  }

  /** A payload may be unmasked in parts if the phase goes on. */
  lemma MaskedParts(s: seq<Byte>, t: seq<Byte>, mask: Mask, phase: nat)
    ensures Masked(s + t, mask, phase) == Masked(s, mask, phase) + Masked(t, mask, phase + |s|)
  {
    hide MaskByte;
    if mask != [] {
      var m, n := Masked(s + t, mask, phase), Masked(s, mask, phase) + Masked(t, mask, phase + |s|);
      forall k | 0 <= k < |s + t| ensures m[k] == n[k] {
        assert m[k] == MaskByte((s + t)[k], mask, k + phase);
        if k >= |s| {
          assert n[k] == MaskByte(t[k - |s|], mask, k - |s| + (phase + |s|));
        }
      }
    }
  }

  // ----- headers

  /** What read_size makes of the bytes it has: -1, -2, -3, or a size; Wrapped is a size that is negative as an int. */
  datatype Head = Short | Skip | Close | Wrapped | Frame(length: nat, size: nat, mask: Mask)

  function BigEndian(s: seq<Byte>): nat
  {
    if s == [] then 0 else BigEndian(s[..|s| - 1]) * 256 + s[|s| - 1]
  }

  /** The size field: how many bytes it takes behind the first two. */
  function SizeBytes(b: Byte): (n: nat)
    ensures n == 0 || n == 2 || n == 8
  {
    if b % 128 < 126 then 0 else if b % 128 == 126 then 2 else 8
  }

  /** read_size, with the size cut to an int and clamped as its callers do. */
  function ReadSize(s: seq<Byte>): (h: Head)
    ensures h.Frame? ==> 2 <= h.length <= |s| && h.size <= MAXPACK
    ensures h.Skip? || h.Close? ==> |s| >= 2
  {
    if |s| < 2 then Short
    else if (s[0] / 16) % 8 != 0 then Skip
    else if s[0] < 128 || s[0] % 16 == 0 then Skip
    else if s[0] % 16 == 8 then Close
    else if |s| < 2 + SizeBytes(s[1]) then Short
    else
      var n := 2 + SizeBytes(s[1]);
      var size := if n == 2 then s[1] % 128 else BigEndian(s[2..n]) % 0x1_0000_0000;
      var clamped := if size > MAXPACK then MAXPACK else size;
      if s[1] < 128 then (if size >= 0x8000_0000 then Wrapped else Frame(n, clamped, []))
      else if |s| < n + 4 then Short
      else if size >= 0x8000_0000 then Wrapped else Frame(n + 4, clamped, s[n..n + 4])
  }

  /** More bytes do not change a header that is all there. */
  lemma ReadSizeStable(s: seq<Byte>, t: seq<Byte>)
    ensures !ReadSize(s).Short? ==> ReadSize(s + t) == ReadSize(s)
  {
    if !ReadSize(s).Short? && (s[0] / 16) % 8 == 0 && s[0] >= 128 && s[0] % 16 != 0 && s[0] % 16 != 8 {
      var n := 2 + SizeBytes(s[1]);
      assert (s + t)[2..n] == s[2..n];
      if s[1] >= 128 {
        assert (s + t)[n..n + 4] == s[n..n + 4];
      }
    }
  }

  lemma BigEndianMore(s: seq<Byte>, b: Byte)
    ensures BigEndian(s + [b]) == BigEndian(s) * 256 + b
  {
    assert (s + [b])[..|s|] == s;
  }

  lemma BigEndianTwo(a: Byte, b: Byte)
    ensures BigEndian([a, b]) == 256 * a + b
  {
    BigEndianMore([], a);
    BigEndianMore([a], b);
    assert [] + [a] == [a] && [a] + [b] == [a, b];
  }

  lemma BigEndianLast(s: seq<Byte>, a: Byte, b: Byte, c: Byte, d: Byte)
    ensures BigEndian(s + [a, b, c, d]) == BigEndian(s) * 0x1_0000_0000 + 0x100_0000 * a + 0x1_0000 * b + 0x100 * c + d
  {
    BigEndianMore(s, a);
    BigEndianMore(s + [a], b);
    BigEndianMore(s + [a] + [b], c);
    BigEndianMore(s + [a] + [b] + [c], d);
    assert s + [a] + [b] + [c] + [d] == s + [a, b, c, d];
  }

  lemma Low(n: nat, q: nat, r: nat)
    requires n == q * 0x1_0000_0000 + r && r < 0x1_0000_0000
    ensures n % 0x1_0000_0000 == r
  {
  }

  /** The first byte: the bits FIN and RSV and the opcode. */
  lemma KindOf(fin: nat, rsv: nat, opcode: nat, rest: seq<Byte>)
    requires fin < 2 && rsv < 8 && opcode < 16 && rest != []
    ensures var h := ReadSize([128 * fin + 16 * rsv + opcode] + rest);
      (h.Skip? <==> fin == 0 || rsv != 0 || opcode == 0) && (h.Close? <==> fin == 1 && rsv == 0 && opcode == 8)
  {
    var b := 128 * fin + 16 * rsv + opcode;
    assert b / 16 == 8 * fin + rsv;
  }

  /** Where the size of a data frame stands by section 5.2 of RFC 6455, and where its mask. */
  lemma HeaderIs(s: seq<Byte>)
    requires |s| >= 2 && s[0] / 16 == 8 && s[0] % 16 != 0 && s[0] % 16 != 8
    ensures var l := s[1] % 128; var k := if l < 126 then 2 else if l == 126 then 4 else 10;
      var e := if s[1] < 128 then k else k + 4; var h := ReadSize(s);
      && (h.Short? <==> |s| < e) && (h.Wrapped? <==> |s| >= e && l == 127 && s[6] >= 128)
      && (h.Short? || h.Wrapped? ||
          h == Frame(e,
                     Clamp(if l < 126 then l else if l == 126 then 0x100 * s[2] + s[3]
                           else 0x100_0000 * s[6] + 0x1_0000 * s[7] + 0x100 * s[8] + s[9]),
                     if s[1] < 128 then [] else s[k..k + 4]))
  {
    hide BigEndian;
    if s[1] % 128 == 126 && |s| >= 4 {
      BigEndianTwo(s[2], s[3]);
      assert s[2..4] == [s[2], s[3]];
    } else if s[1] % 128 == 127 && |s| >= 10 {
      BigEndianLast(s[2..6], s[6], s[7], s[8], s[9]);
      assert s[2..10] == s[2..6] + [s[6], s[7], s[8], s[9]];
      var a: nat, b: nat, c: nat := s[6], s[7], s[8];
      Low(BigEndian(s[2..10]), BigEndian(s[2..6]), 0x100_0000 * a + 0x1_0000 * b + 0x100 * c + s[9]);
    }
  }

  // ----- streams

  /** The stream begins with a whole frame. */
  predicate Whole(s: seq<Byte>)
  {
    var h := ReadSize(s);
    h.Frame? && |s| >= h.length + h.size
  }

  /** The stream begins with two bytes that are thrown away; here this is what becomes of a close frame too. */
  predicate Junk(s: seq<Byte>)
  {
    ReadSize(s).Skip? || ReadSize(s).Close?
  }

  function Payload(s: seq<Byte>): seq<Byte>
    requires Whole(s)
  {
    var h := ReadSize(s);
    Masked(s[h.length..h.length + h.size], h.mask, 0)
  }

  /** Byte k of the payload is that byte of the frame, under byte k mod 4 of the four before the payload if there is a mask. */
  lemma PayloadBytes(s: seq<Byte>)
    requires Whole(s)
    ensures var h := ReadSize(s).length; var p := Payload(s);
      |p| == ReadSize(s).size && h + |p| <= |s| && forall k :: 0 <= k < |p| ==>
        if s[1] < 128 then p[k] == s[h + k] else h >= 6 && p[k] == Xor(s[h + k], s[h - 4 + k % 4])
  {
    var h := ReadSize(s);
    var body := s[h.length..h.length + h.size];
    hide Xor;
    if s[1] >= 128 {
      forall k | 0 <= k < h.size ensures Payload(s)[k] == Xor(s[h.length + k], s[h.length - 4 + k % 4]) {
        assert Payload(s)[k] == MaskByte(body[k], h.mask, k);
        assert h.mask[k % 4] == s[h.length - 4 + k % 4];
      }
    }
  }

  function End(s: seq<Byte>): (e: nat)
    requires Whole(s)
    ensures 2 <= e <= |s|
  {
    ReadSize(s).length + ReadSize(s).size
  }

  /** The payloads of a stream, and the rest behind the last whole frame. */
  ghost function Payloads(s: seq<Byte>): seq<seq<Byte>>
    decreases |s|
  {
    if Junk(s) then Payloads(s[2..])
    else if Whole(s) then [Payload(s)] + Payloads(s[End(s)..])
    else []
  }

  ghost function Rest(s: seq<Byte>): (r: seq<Byte>)
    ensures !Junk(r) && !Whole(r)
    decreases |s|
  {
    if Junk(s) then Rest(s[2..]) else if Whole(s) then Rest(s[End(s)..]) else s
  }

  /** No header on the way claims a size that wraps to a negative int. */
  ghost predicate Sane(s: seq<Byte>)
    decreases |s|
  {
    if Junk(s) then Sane(s[2..])
    else if Whole(s) then Sane(s[End(s)..])
    else !ReadSize(s).Wrapped?
  }

  /** Nor is there a close frame. */
  ghost predicate CloseFree(s: seq<Byte>)
    decreases |s|
  {
    if Junk(s) then !ReadSize(s).Close? && CloseFree(s[2..])
    else Whole(s) ==> CloseFree(s[End(s)..])
  }

  lemma WholeStable(s: seq<Byte>, t: seq<Byte>)
    ensures Junk(s) ==> Junk(s + t) && (s + t)[2..] == s[2..] + t
    ensures Whole(s) ==> Whole(s + t) && !Junk(s) && !Junk(s + t)
    ensures Whole(s) ==> End(s + t) == End(s) && Payload(s + t) == Payload(s) && (s + t)[End(s)..] == s[End(s)..] + t
  {
    ReadSizeStable(s, t);
    if Whole(s) {
      var h := ReadSize(s);
      assert (s + t)[h.length..h.length + h.size] == s[h.length..h.length + h.size];
    }
  }

  /** Where a stream is cut does not matter, if the rest of the first part goes before the second. */
  lemma {:induction false} Chunks(s: seq<Byte>, t: seq<Byte>)
    ensures Payloads(s + t) == Payloads(s) + Payloads(Rest(s) + t)
    ensures Rest(s + t) == Rest(Rest(s) + t)
    ensures Sane(s + t) ==> Sane(s) && Sane(Rest(s) + t)
    ensures CloseFree(s + t) ==> CloseFree(s) && CloseFree(Rest(s) + t)
    decreases |s|
  {
    WholeStable(s, t);
    ReadSizeStable(s, t);
    if Junk(s) {
      Chunks(s[2..], t);
    } else if Whole(s) {
      Chunks(s[End(s)..], t);
    }
  }

  // ----- writing

  /** Two bytes or eight, most significant first. */
  function BigEndianBytes(n: nat, k: nat): (s: seq<Byte>)
    ensures |s| == k
  {
    if k == 0 then [] else BigEndianBytes(n / 256, k - 1) + [n % 256]
  }

  function Two8(k: nat): (p: nat)
    ensures p > 0
  {
    if k == 0 then 1 else 256 * Two8(k - 1)
  }

  lemma {:induction false} BigEndianInverse(n: nat, k: nat)
    requires n < Two8(k)
    ensures BigEndian(BigEndianBytes(n, k)) == n
  {
    if k > 0 {
      BigEndianInverse(n / 256, k - 1);
      var s := BigEndianBytes(n, k);
      assert s[..k - 1] == BigEndianBytes(n / 256, k - 1);
    }
  }

  /** What lpack writes: one binary frame without a mask. */
  function Pack(p: seq<Byte>): seq<Byte>
    requires |p| < Two8(8)
  {
    [128 + 2] +
    (if |p| < 126 then [|p|]
     else if |p| < 65536 then [126] + BigEndianBytes(|p|, 2)
     else [127] + BigEndianBytes(|p|, 8)) +
    p
  }

  /** A frame as other peers may write it: any opcode that stands alone, any form of the size, a mask or none. */
  datatype Form = Small | Medium | Large

  predicate Fits(n: nat, form: Form)
  {
    match form
    case Small => n < 126
    case Medium => n < 65536
    case Large => n < 0x8000_0000
  }

  /** The second byte but for the mask bit, and the size field behind it. */
  function SizeCode(n: nat, form: Form): (c: nat)
    requires Fits(n, form)
    ensures c < 128
  {
    match form
    case Small => n
    case Medium => 126
    case Large => 127
  }

  function SizeField(n: nat, form: Form): seq<Byte>
    requires Fits(n, form)
  {
    match form
    case Small => []
    case Medium => BigEndianBytes(n, 2)
    case Large => BigEndianBytes(n, 8)
  }

  function SecondByte(n: nat, form: Form, mask: Mask): Byte
    requires Fits(n, form)
  {
    (if mask == [] then 0 else 128) + SizeCode(n, form)
  }

  function Encoded(opcode: nat, form: Form, mask: Mask, p: seq<Byte>): seq<Byte>
    requires 0 < opcode < 16 && Fits(|p|, form)
  {
    [128 + opcode, SecondByte(|p|, form, mask)] + SizeField(|p|, form) + mask + SentMasked(p, mask)
  }

  function Clamp(n: nat): nat
  {
    if n > MAXPACK then MAXPACK else n
  }

  lemma Slices(b0: Byte, b1: Byte, size: seq<Byte>, mask: seq<Byte>, t: seq<Byte>)
    ensures var s := [b0, b1] + size + mask + t; var k := 2 + |size|;
      |s| == k + |mask| + |t| && s[0] == b0 && s[1] == b1 && s[2..k] == size &&
      s[k..k + |mask|] == mask && s[k + |mask|..] == t
  {
  }

  /** A header read back from its parts. */
  lemma HeaderParts(b0: Byte, b1: Byte, size: seq<Byte>, mask: Mask, t: seq<Byte>, n: nat)
    requires b0 / 16 == 8 && b0 % 16 != 0 && b0 % 16 != 8
    requires |size| == SizeBytes(b1) && (b1 >= 128 <==> mask != []) && n < 0x8000_0000
    requires n == if size == [] then b1 % 128 else BigEndian(size)
    ensures ReadSize([b0, b1] + size + mask + t) == Frame(2 + |size| + |mask|, Clamp(n), mask)
    ensures ([b0, b1] + size + mask + t)[2 + |size| + |mask|..] == t
  {
    Slices(b0, b1, size, mask, t);
    assert (b0 / 16) % 8 == 0 && b0 >= 128;
    hide BigEndian;
  }

  lemma SizeRead(n: nat, form: Form, mask: Mask)
    requires Fits(n, form)
    ensures |SizeField(n, form)| == SizeBytes(SecondByte(n, form, mask))
    ensures n == if SizeField(n, form) == [] then SecondByte(n, form, mask) % 128 else BigEndian(SizeField(n, form))
  {
    if form.Medium? {
      BigEndianInverse(n, 2);
    } else if form.Large? {
      BigEndianInverse(n, 8);
    }
  }

  lemma HeaderRead(opcode: nat, form: Form, mask: Mask, p: seq<Byte>, t: seq<Byte>)
    requires 0 < opcode < 16 && opcode != 8 && Fits(|p|, form)
    ensures var s := Encoded(opcode, form, mask, p) + t; var h := ReadSize(s);
      h.Frame? && h.mask == mask && h.size == Clamp(|p|) && s[h.length..] == SentMasked(p, mask) + t
  {
    hide ReadSize, SentMasked, SizeField, SizeBytes, BigEndian;
    var size, rest, b1 := SizeField(|p|, form), SentMasked(p, mask) + t, SecondByte(|p|, form, mask);
    SizeRead(|p|, form, mask);
    assert b1 >= 128 <==> mask != [];
    hide SecondByte;
    HeaderParts(128 + opcode, b1, size, mask, rest, |p|);
    FiveJoined([128 + opcode, b1], size, mask, SentMasked(p, mask), t);
  }

  lemma FiveJoined(a: seq<Byte>, b: seq<Byte>, c: seq<Byte>, d: seq<Byte>, e: seq<Byte>)
    ensures a + b + c + d + e == a + b + c + (d + e)
  {
  }

  /** A frame read back: its payload if that is no longer than MAX_PACKSIZE, and its first bytes otherwise. */
  lemma FrameRead(opcode: nat, form: Form, mask: Mask, p: seq<Byte>, t: seq<Byte>)
    requires 0 < opcode < 16 && opcode != 8 && Fits(|p|, form)
    ensures var s := Encoded(opcode, form, mask, p) + t; var n := Clamp(|p|);
      !Junk(s) && Whole(s) && Payload(s) == p[..n] && s[End(s)..] == SentMasked(p, mask)[n..] + t
  {
    hide ReadSize, Masked, SentMasked, Encoded;
    SenderMasks(p, mask);
    HeaderRead(opcode, form, mask, p, t);
    var s, n := Encoded(opcode, form, mask, p) + t, Clamp(|p|);
    SliceBody(s, ReadSize(s).length, n, Masked(p, mask, 0), t);
    MaskedPrefix(p, n, mask);
    MaskedTwice(p[..n], mask, 0);
  }

  lemma SliceBody(s: seq<Byte>, k: nat, n: nat, m: seq<Byte>, t: seq<Byte>)
    requires k <= |s| && s[k..] == m + t && n <= |m|
    ensures k + n <= |s| && s[k..k + n] == m[..n] && s[k + n..] == m[n..] + t
  {
    assert s[k..k + n] == (m + t)[..n];
    assert s[k + n..] == (m + t)[n..];
  }

  lemma MaskedPrefix(p: seq<Byte>, n: nat, mask: Mask)
    requires n <= |p|
    ensures Masked(p, mask, 0)[..n] == Masked(p[..n], mask, 0)
  {
    MaskedParts(p[..n], p[n..], mask, 0);
    assert p == p[..n] + p[n..];
  }

  /** A series of frames. */
  datatype Outgoing = Outgoing(opcode: nat, form: Form, mask: Mask, payload: seq<Byte>)

  predicate WellFormed(f: Outgoing)
  {
    0 < f.opcode < 16 && f.opcode != 8 && Fits(|f.payload|, f.form) && |f.payload| <= MAXPACK
  }

  ghost function Stream(fs: seq<Outgoing>): seq<Byte>
    requires forall k :: 0 <= k < |fs| ==> WellFormed(fs[k])
  {
    if fs == [] then [] else assert WellFormed(fs[0]); Encoded(fs[0].opcode, fs[0].form, fs[0].mask, fs[0].payload) + Stream(fs[1..])
  }

  ghost function Contents(fs: seq<Outgoing>): seq<seq<Byte>>
  {
    if fs == [] then [] else [fs[0].payload] + Contents(fs[1..])
  }

  /** Reading gives back what well-formed frames carry. */
  lemma {:induction false} StreamRead(fs: seq<Outgoing>)
    requires forall k :: 0 <= k < |fs| ==> WellFormed(fs[k])
    ensures Payloads(Stream(fs)) == Contents(fs) && Rest(Stream(fs)) == []
    ensures CloseFree(Stream(fs)) && Sane(Stream(fs))
  {
    if fs != [] {
      var f, t := fs[0], Stream(fs[1..]);
      assert WellFormed(f);
      StreamRead(fs[1..]);
      FrameRead(f.opcode, f.form, f.mask, f.payload, t);
      var s := Stream(fs);
      assert s == Encoded(f.opcode, f.form, f.mask, f.payload) + t;
      hide ReadSize, Masked, Encoded, Stream, Payload, End, Junk, Whole;
      assert s[End(s)..] == t && Payload(s) == f.payload;
    }
  }

  /** lpack: a message comes back whole exactly when it is no longer than MAX_PACKSIZE. */
  lemma PackRead(p: seq<Byte>, t: seq<Byte>)
    requires |p| < 0x8000_0000
    ensures var s := Pack(p) + t;
      Whole(s) && (Payload(s) == p <==> |p| <= 10240) && (|p| <= 10240 ==> s[End(s)..] == t)
  {
    var form := if |p| < 126 then Small else if |p| < 65536 then Medium else Large;
    assert Pack(p) == Encoded(2, form, [], p);
    FrameRead(2, form, [], p, t);
  }

  /** Its bytes: FIN and the opcode of binary data, the shortest form of the size without a mask, and the message. */
  lemma PackIs(p: seq<Byte>)
    requires |p| < Two8(8)
    ensures |p| < 126 ==> Pack(p) == [0x82, |p|] + p
    ensures 126 <= |p| < 0x1_0000 ==> Pack(p) == [0x82, 126, |p| / 0x100, |p| % 0x100] + p
    ensures |p| >= 0x1_0000 ==> |Pack(p)| == |p| + 10 && Pack(p)[..2] == [0x82, 127] && Pack(p)[10..] == p
    ensures |p| >= 0x1_0000 ==> forall i :: 2 <= i < 10 ==> Pack(p)[i] == (|p| / Two8(9 - i)) % 0x100
  {
    var n := |p|;
    if 126 <= n < 0x1_0000 {
      assert BigEndianBytes(n, 2) == [n / 0x100, n % 0x100] by {
        assert BigEndianBytes(n / 0x100, 1) == [] + [n / 0x100];
      }
    } else if n >= 0x1_0000 {
      hide BigEndianBytes;
      forall i | 0 <= i < 8 ensures BigEndianBytes(n, 8)[i] == (n / Two8(7 - i)) % 0x100 {
        BigEndianAt(n, 8, i);
      }
      assert forall i :: 2 <= i < 10 ==> Pack(p)[i] == BigEndianBytes(n, 8)[i - 2];
    }
  }

  lemma {:induction false} BigEndianAt(n: nat, k: nat, i: nat)
    requires i < k
    ensures BigEndianBytes(n, k)[i] == (n / Two8(k - 1 - i)) % 0x100
  {
    if i < k - 1 {
      BigEndianAt(n / 0x100, k - 1, i);
      DivideTwice(n, Two8(k - 2 - i));
    }
  }

  lemma DivideTwice(n: nat, m: nat)
    requires m > 0
    ensures n / 0x100 / m == n / (0x100 * m)
  {
    var q := n / 0x100 / m;
    var r := n / 0x100 - q * m;
    assert n == q * (0x100 * m) + (r * 0x100 + n % 0x100);
    DivUnique(n, 0x100 * m, q, r * 0x100 + n % 0x100);
  }

  function AsFrame(p: seq<Byte>): Outgoing
  {
    Outgoing(2, if |p| < 126 then Small else if |p| < 65536 then Medium else Large, [], p)
  }

  ghost function Packed(ps: seq<seq<Byte>>): seq<Byte>
    requires forall k :: 0 <= k < |ps| ==> |ps[k]| <= MAXPACK
  {
    if ps == [] then [] else Pack(ps[0]) + Packed(ps[1..])
  }

  ghost function AsFrames(ps: seq<seq<Byte>>): (fs: seq<Outgoing>)
    requires forall k :: 0 <= k < |ps| ==> |ps[k]| <= MAXPACK
    ensures |fs| == |ps| && forall k :: 0 <= k < |fs| ==> WellFormed(fs[k])
  {
    if ps == [] then [] else [AsFrame(ps[0])] + AsFrames(ps[1..])
  }

  /** What lpack wrote, message after message, reads back as the messages. */
  lemma {:induction false} PackedRead(ps: seq<seq<Byte>>)
    requires forall k :: 0 <= k < |ps| ==> |ps[k]| <= MAXPACK
    ensures Payloads(Packed(ps)) == ps && Rest(Packed(ps)) == [] && CloseFree(Packed(ps)) && Sane(Packed(ps))
  {
    StreamRead(AsFrames(ps));
    PackedIsStream(ps);
  }

  lemma {:induction false} PackedIsStream(ps: seq<seq<Byte>>)
    requires forall k :: 0 <= k < |ps| ==> |ps[k]| <= MAXPACK
    ensures Packed(ps) == Stream(AsFrames(ps)) && Contents(AsFrames(ps)) == ps
  {
    if ps != [] {
      PackedIsStream(ps[1..]);
      var f := AsFrame(ps[0]);
      assert AsFrames(ps)[1..] == AsFrames(ps[1..]);
      assert Pack(ps[0]) == Encoded(f.opcode, f.form, f.mask, f.payload);
    }
  }
}
