/** What lua-websocketnetpack.c keeps of a frame that is not all there, and how it grows. */
module WsReassembly {
  import opened Bytes
  import opened WsFrames

  const HEADERSIZE: nat := 1024

  /** What fits in the header array of an entry. */
  type HeaderBytes = s: seq<Byte> | |s| <= HEADERSIZE witness []

  /**
   read < 0: the header is not all there, and header is what there is of it.
   Otherwise data holds the first read bytes of the payload, unmasked.
   */
  datatype Uncomplete = Uncomplete(id: int, header: HeaderBytes, read: int, mask: Mask, hasUnmask: nat,
                                   size: nat, data: seq<Byte>)

  /** The entry stands for raw, all there is of the frame as it came in. */
  ghost predicate Represents(u: Uncomplete, raw: seq<Byte>)
  {
    if u.read < 0 then u.read == -1 && raw == u.header && ReadSize(u.header).Short?
    else UnderWay(u, raw) && u.read < u.size
  }

  ghost predicate UnderWay(u: Uncomplete, raw: seq<Byte>)
  {
    var h := ReadSize(raw);
    && h.Frame? && h.size == u.size && h.mask == u.mask && |raw| == h.length + u.read && 0 <= u.read <= u.size
    && u.data == Masked(raw[h.length..], h.mask, 0)
    && u.hasUnmask == if u.mask == [] then 0 else u.read
  }

  /** The entry with more of its payload. */
  function Fed(u: Uncomplete, t: seq<Byte>): (v: Uncomplete)
    ensures v.id == u.id
  {
    u.(read := u.read + |t|, data := u.data + Masked(t, u.mask, u.hasUnmask),
       hasUnmask := if u.mask == [] then u.hasUnmask else u.hasUnmask + |t|)
  }

  /** A frame under way takes bytes t: it is whole with so many of them, and longer by all of them otherwise. */
  lemma FrameGrows(u: Uncomplete, raw: seq<Byte>, t: seq<Byte>)
    requires UnderWay(u, raw)
    ensures ReadSize(raw + t) == ReadSize(raw) && !Junk(raw + t)
    ensures Whole(raw + t) <==> |t| >= u.size - u.read
    ensures |t| >= u.size - u.read ==> Payload(raw + t) == Fed(u, t[..u.size - u.read]).data
    ensures |t| >= u.size - u.read ==> (raw + t)[End(raw + t)..] == t[u.size - u.read..]
    ensures |t| < u.size - u.read ==> Represents(Fed(u, t), raw + t)
    ensures 0 <= u.read <= u.size
  {
    ReadSizeStable(raw, t);
    var h := ReadSize(raw);
    hide ReadSize, Masked;
    var need := u.size - u.read;
    var body := raw[h.length..];
    assert (raw + t)[h.length..] == body + t;
    if |t| >= need {
      assert (raw + t)[h.length..h.length + h.size] == body + t[..need];
      Grown(body, t[..need], u.mask, u.hasUnmask);
    } else {
      Grown(body, t, u.mask, u.hasUnmask);
    }
  }

  lemma Grown(body: seq<Byte>, t: seq<Byte>, mask: Mask, hasUnmask: nat)
    requires hasUnmask == if mask == [] then 0 else |body|
    ensures Masked(body + t, mask, 0) == Masked(body, mask, 0) + Masked(t, mask, hasUnmask)
  {
    MaskedParts(body, t, mask, 0);
  }

  /** One byte more than too few: what the header is then. */
  lemma HeaderGrows(s: seq<Byte>, b: Byte)
    requires ReadSize(s).Short?
    ensures ReadSize(s + [b]).Frame? ==> ReadSize(s + [b]).length == |s| + 1
    ensures ReadSize(s + [b]).Skip? ==> |s| == 1
  {
    if |s| >= 2 {
      assert (s + [b])[0] == s[0] && (s + [b])[1] == s[1];
    }
  }

  /** A header that is not all there is far from filling its array. */
  lemma ShortFits(s: seq<Byte>)
    requires ReadSize(s).Short?
    ensures |s| < 14 < HEADERSIZE
  {
  }

  /** The stream behind the bytes that are thrown away at first. */
  ghost function Opening(s: seq<Byte>): (t: seq<Byte>)
    ensures !ReadSize(t).Skip? && |t| <= |s|
    decreases |s|
  {
    if ReadSize(s).Skip? then Opening(s[2..]) else s
  }

  /** The first thing in the stream that is not thrown away is a close frame. */
  ghost predicate OpensWithClose(s: seq<Byte>)
  {
    ReadSize(Opening(s)).Close?
  }

  /**
   For a connection with half a header: a close frame does not end the loop over the header,
   which goes on storing the chunk and stays inside of its array only so far.
   */
  ghost predicate HeaderFits(s: seq<Byte>)
  {
    OpensWithClose(s) ==> |Opening(s)| <= HEADERSIZE
  }

  ghost function Zeros(n: nat): (s: seq<Byte>)
    ensures |s| == n && forall k :: 0 <= k < n ==> s[k] == 0
  {
    seq(n, _ => 0)
  }

  lemma {:induction false} ZerosSane(s: seq<Byte>)
    requires forall k :: 0 <= k < |s| ==> s[k] == 0
    ensures Sane(s)
    decreases |s|
  {
    if |s| >= 2 {
      ZerosSane(s[2..]);
    }
  }

  /** The first byte of a close frame waits, and n zeros follow: they fit exactly if they are fewer than 1024. */
  lemma CloseInHalves(n: nat)
    requires n > 0
    ensures var s := [0x88] + Zeros(n);
      Sane(s) && OpensWithClose(s) && |Opening(s)| == n + 1 && (HeaderFits(s) <==> n < 1024)
  {
    var s: seq<Byte> := [0x88] + Zeros(n);
    ZerosSane(s[2..]);
    assert ReadSize(s).Close?;
  }

  /** A stream without close frames does not open with one. */
  lemma {:induction false} NoCloseFirst(s: seq<Byte>)
    requires CloseFree(s)
    ensures !OpensWithClose(s)
    decreases |s|
  {
    if ReadSize(s).Skip? {
      NoCloseFirst(s[2..]);
    }
  }

  /** A frame whose header is there, with nothing of its payload yet. */
  function Begun(fd: int, h: Head): Uncomplete
    requires h.Frame?
  {
    Uncomplete(fd, [], 0, h.mask, 0, h.size, [])
  }

  lemma BegunUnderWay(fd: int, s: seq<Byte>)
    requires ReadSize(s).Frame?
    ensures UnderWay(Begun(fd, ReadSize(s)), s[..ReadSize(s).length])
    ensures s == s[..ReadSize(s).length] + s[ReadSize(s).length..]
  {
    var h := ReadSize(s);
    var p, k := s[..h.length], 2 + SizeBytes(s[1]);
    PrefixSlice(s, h.length, 2, k);
    if s[1] >= 128 {
      PrefixSlice(s, h.length, k, k + 4);
    }
    hide BigEndian;
    assert ReadSize(p) == h;
    hide ReadSize;
    assert p[h.length..] == [];
  }

  lemma PrefixSlice(s: seq<Byte>, n: nat, i: nat, j: nat)
    requires i <= j <= n <= |s|
    ensures s[..n][i..j] == s[i..j]
  {
  }

  /** The stream is one whole frame and nothing else. */
  ghost predicate OneFrame(s: seq<Byte>)
  {
    Whole(s) && End(s) == |s|
  }

  /**
   What one chunk does to a connection: s is what was pending and the chunk. If a close frame comes first the connection is
   closed; otherwise the payloads of s are handed over, and the rest of it is pending. A single package comes back at once exactly when the
   stream behind what is thrown away is one frame.
   */
  ghost predicate Filtered(s: seq<Byte>, closed: bool, single: bool, packages: seq<seq<Byte>>, rest: seq<Byte>)
  {
    if OpensWithClose(s) then closed && !single && packages == [] && rest == []
    else
      && !closed && packages == Payloads(s) && rest == Rest(s) && (single <==> OneFrame(Opening(s)))
      && (single ==> |packages| == 1 && rest == [])
  }

  lemma FilteredShort(s: seq<Byte>, header: seq<Byte>)
    requires Alike(s, header) && ReadSize(header).Short?
    ensures Filtered(s, false, false, [], header) && !OpensWithClose(s)
  {
    NoFrame(header);
  }

  lemma FilteredClose(s: seq<Byte>, header: seq<Byte>)
    requires Alike(s, header) && ReadSize(header).Close?
    ensures Filtered(s, true, false, [], []) && OpensWithClose(s) && Opening(s) == header
  {
  }

  lemma FilteredFrame(s: seq<Byte>, t: seq<Byte>, single: bool, packages: seq<seq<Byte>>, rest: seq<Byte>)
    requires Alike(s, t) && !Junk(t) && packages == Payloads(t) && rest == Rest(t) && (single <==> OneFrame(t))
    requires single ==> |packages| == 1 && rest == []
    ensures Filtered(s, false, single, packages, rest) && !OpensWithClose(s)
  {
  }

  /** Streams s and t carry the same. */
  ghost predicate Alike(s: seq<Byte>, t: seq<Byte>)
  {
    Payloads(s) == Payloads(t) && Rest(s) == Rest(t) && Opening(s) == Opening(t)
  }

  /** A header takes one more byte: it is still short, or all there, or it begins with bytes to be thrown away. */
  lemma HeaderStep(s: seq<Byte>, header: seq<Byte>, b: Byte, t: seq<Byte>)
    requires ReadSize(header).Short? || ReadSize(header).Close?
    requires Alike(s, header + ([b] + t)) && Sane(header + ([b] + t))
    ensures var next := if ReadSize(header + [b]).Skip? then [] else header + [b];
      && Alike(s, next + t) && Sane(next + t) && (ReadSize(header + [b]).Skip? ==> |header| == 1)
      && (ReadSize(next).Short? || ReadSize(next).Close? || (ReadSize(next).Frame? && ReadSize(next).length == |next|))
  {
    assert header + ([b] + t) == header + [b] + t;
    if ReadSize(header).Short? {
      HeaderGrows(header, b);
    }
    hide Payloads, Rest, Opening, Sane;
    ReadSizeStable(header, [b]);
    ReadSizeStable(header + [b], t);
    if ReadSize(header + [b]).Skip? {
      Skipped(header + [b] + t);
      assert (header + [b] + t)[2..] == [] + t;
    } else {
      NotWrapped(header + [b], t);
    }
  }

  lemma NotWrapped(header: seq<Byte>, t: seq<Byte>)
    requires Sane(header + t)
    ensures !ReadSize(header).Wrapped?
  {
    ReadSizeStable(header, t);
  }

  /** Bytes thrown away in front of a stream. */
  lemma Skipped(s: seq<Byte>)
    requires Junk(s)
    ensures Payloads(s) == Payloads(s[2..]) && Rest(s) == Rest(s[2..])
    ensures Sane(s) ==> Sane(s[2..])
    ensures ReadSize(s).Skip? ==> Opening(s) == Opening(s[2..])
  {
  }

  /** The first frame of a stream. */
  lemma FirstFrame(s: seq<Byte>)
    requires Whole(s)
    ensures Payloads(s) == [Payload(s)] + Payloads(s[End(s)..]) && Rest(s) == Rest(s[End(s)..])
    ensures Sane(s) ==> Sane(s[End(s)..])
    ensures !OpensWithClose(s)
  {
  }

  lemma SaneHead(s: seq<Byte>)
    requires Sane(s) && !Junk(s)
    ensures ReadSize(s).Short? || ReadSize(s).Frame?
  {
  }

  lemma Empty()
    ensures Payloads([]) == [] && Rest([]) == []
  {
  }

  lemma NoFrame(s: seq<Byte>)
    requires !Whole(s) && !Junk(s)
    ensures Payloads(s) == [] && Rest(s) == s && !OpensWithClose(s)
  {
  }

  // ----- the hash table

  const HASHSIZE: nat := 4096

  /** hash_fd; the sum may be negative, and so is cut to unsigned first. */
  function HashFd(fd: int): (h: nat)
    ensures h < HASHSIZE
  {
    (fd / 0x100_0000 + fd / 0x1000 + fd) % HASHSIZE
  }

  ghost predicate Has(b: seq<Uncomplete>, fd: int)
  {
    exists k :: 0 <= k < |b| && b[k].id == fd
  }

  /** The entry belongs in bucket h and stands for what is pending. */
  ghost predicate EntryOk(u: Uncomplete, h: nat, pending: map<int, seq<Byte>>)
  {
    HashFd(u.id) == h && u.id in pending && Represents(u, pending[u.id])
  }

  ghost predicate BucketOk(b: seq<Uncomplete>, h: nat, pending: map<int, seq<Byte>>)
  {
    && (forall k :: 0 <= k < |b| ==> EntryOk(b[k], h, pending))
    && forall j, k :: 0 <= j < k < |b| ==> b[j].id != b[k].id
  }

  /** Each connection with something pending has one entry, in its bucket. */
  ghost predicate TableOk(t: seq<seq<Uncomplete>>, pending: map<int, seq<Byte>>)
  {
    && |t| == HASHSIZE
    && (forall h :: 0 <= h < HASHSIZE ==> BucketOk(t[h], h, pending))
    && forall fd :: fd in pending ==> Has(t[HashFd(fd)], fd)
  }

  lemma TableWithout(t: seq<seq<Uncomplete>>, pending: map<int, seq<Byte>>, fd: int, k: nat)
    requires TableOk(t, pending) && k < |t[HashFd(fd)]| && t[HashFd(fd)][k].id == fd
    ensures var b := t[HashFd(fd)]; TableOk(t[HashFd(fd) := b[..k] + b[k + 1..]], pending - {fd})
  {
    hide Represents, HashFd;
    var h := HashFd(fd);
    var b, pending' := t[h], pending - {fd};
    var b' := b[..k] + b[k + 1..];
    var t' := t[h := b'];
    forall g | 0 <= g < HASHSIZE ensures BucketOk(t'[g], g, pending') {
      assert BucketOk(t[g], g, pending);
      forall j | 0 <= j < |t'[g]| ensures EntryOk(t'[g][j], g, pending') {
        var i := if g == h && j >= k then j + 1 else j;
        assert t'[g][j] == t[g][i] && EntryOk(t[g][i], g, pending);
      }
    }
    forall f | f in pending' ensures Has(t'[HashFd(f)], f) {
      var i :| 0 <= i < |t[HashFd(f)]| && t[HashFd(f)][i].id == f;
      if HashFd(f) == h {
        assert b'[if i < k then i else i - 1].id == f;
      }
    }
  }

  lemma TableWith(t: seq<seq<Uncomplete>>, pending: map<int, seq<Byte>>, u: Uncomplete, raw: seq<Byte>)
    requires TableOk(t, pending) && u.id !in pending && Represents(u, raw)
    ensures TableOk(t[HashFd(u.id) := [u] + t[HashFd(u.id)]], pending[u.id := raw])
  {
    hide Represents, HashFd;
    var h := HashFd(u.id);
    var pending' := pending[u.id := raw];
    var t' := t[h := [u] + t[h]];
    forall g | 0 <= g < HASHSIZE ensures BucketOk(t'[g], g, pending') {
      assert BucketOk(t[g], g, pending);
      forall j | 0 <= j < |t'[g]| ensures EntryOk(t'[g][j], g, pending') {
        if g == h && j > 0 {
          assert t'[g][j] == t[g][j - 1] && EntryOk(t[g][j - 1], g, pending);
        } else if g != h {
          assert EntryOk(t[g][j], g, pending);
        }
      }
    }
    forall f | f in pending' ensures Has(t'[HashFd(f)], f) {
      if f == u.id {
        assert t'[h][0].id == f;
      } else {
        var i :| 0 <= i < |t[HashFd(f)]| && t[HashFd(f)][i].id == f;
        assert t'[HashFd(f)][if HashFd(f) == h then i + 1 else i].id == f;
      }
    }
  }
}
