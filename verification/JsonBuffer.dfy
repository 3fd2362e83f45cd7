/** The growing string buffer of strbuf.c and strbuf.h. */
module JsonBuffer {
  import opened Arith
  import opened Bytes
  import opened JsonValues

  const DEFAULTSIZE: nat := 1023

  /** A size multiplied k times, and not oftener than it takes to exceed len. */
  ghost predicate Grown(size: nat, base: nat, factor: nat, k: nat, len: nat)
  {
    size == base * Pow(factor, k) && (k > 0 ==> base * Pow(factor, k - 1) <= len)
  }

  class StrBuf {
    var buf: array<Byte>
    var length: nat
    /** How often the size is multiplied by: minus the increment, which is below -1 (the default is -2). */
    const factor: nat
    var reallocs: nat

    /** There is always room for a terminating NUL. */
    ghost predicate Valid()
      reads this
    {
      length < buf.Length && factor >= 2
    }

    ghost function Contents(): seq<Byte>
      requires Valid()
      reads this, buf
    {
      buf[..length]
    }

    /** strbuf_init */
    constructor (len: int, factor: nat)
      requires factor >= 2
      ensures Valid() && Contents() == [] && fresh(buf) && buf.Length == if len <= 0 then DEFAULTSIZE else len + 1
    {
      buf := new Byte[if len <= 0 then DEFAULTSIZE else len + 1];
      length, this.factor, reallocs := 0, factor, 0;
      new;
      buf[0] := 0;
    }

    /** strbuf_reset */
    method Reset()
      requires Valid()
      modifies this`length
      ensures Valid() && Contents() == []
    {
      length := 0;
    }

    /** strbuf_empty_length */
    function EmptyLength(): (n: nat)
      requires Valid()
      reads this
      ensures length + n + 1 == buf.Length
    {
      buf.Length - length - 1
    }

    /** calculate_new_size, with exponential growth. */
    method NewSize(len: nat) returns (size: nat)
      requires Valid() && len > 0
      ensures size > len
      ensures buf.Length > len + 1 ==> size == len + 1
      ensures buf.Length <= len + 1 ==> exists k: nat :: Grown(size, buf.Length, factor, k, len)
    {
      if buf.Length > len + 1 {
        return len + 1;
      }
      size := buf.Length;
      ghost var k: nat := 0;
      while size < len + 1
        invariant Grown(size, buf.Length, factor, k, len) && size > 0
        decreases len + 1 - size
      {
        Larger(buf.Length, factor, k);
        size := size * factor;
        k := k + 1;
      }
    }

    /** strbuf_resize to no less than there is already. */
    method Resize(len: nat)
      requires Valid() && length <= len && len > 0
      modifies this`buf, this`reallocs
      ensures Valid() && fresh(buf) && buf.Length > len && Contents() == old(Contents()) && reallocs == old(reallocs) + 1
    {
      var size := NewSize(len);
      var bigger := new Byte[size];
      for i := 0 to length
        modifies bigger
        invariant bigger[..i] == buf[..i]
      {
        bigger[i] := buf[i];
      }
      buf := bigger;
      reallocs := reallocs + 1;
    }

    /** strbuf_ensure_empty_length */
    method EnsureEmptyLength(len: nat)
      requires Valid()
      modifies this`buf, this`reallocs
      ensures Valid() && EmptyLength() >= len && Contents() == old(Contents())
      ensures buf == old(buf) || fresh(buf)
    {
      if len > EmptyLength() {
        Resize(length + len);
      }
    }

    /** strbuf_append_char_unsafe: the caller knows that there is room. */
    method AppendCharUnsafe(c: Byte)
      requires Valid() && EmptyLength() > 0
      modifies this`length, buf
      ensures Valid() && Contents() == old(Contents()) + [c] && EmptyLength() == old(EmptyLength()) - 1
    {
      buf[length] := c;
      length := length + 1;
    }

    /** strbuf_append_mem_unsafe */
    method AppendMemUnsafe(c: seq<Byte>)
      requires Valid() && EmptyLength() >= |c|
      modifies this`length, buf
      ensures Valid() && Contents() == old(Contents()) + c && EmptyLength() == old(EmptyLength()) - |c|
    {
      forall k | 0 <= k < |c| {
        buf[length + k] := c[k];
      }
      length := length + |c|;
    }

    /** strbuf_append_char */
    method AppendChar(c: Byte)
      requires Valid()
      modifies this, buf
      ensures Valid() && Contents() == old(Contents()) + [c] && (buf == old(buf) || fresh(buf))
    {
      EnsureEmptyLength(1);
      AppendCharUnsafe(c);
    }

    /** strbuf_append_mem */
    method AppendMem(c: seq<Byte>)
      requires Valid()
      modifies this, buf
      ensures Valid() && Contents() == old(Contents()) + c && (buf == old(buf) || fresh(buf))
    {
      EnsureEmptyLength(|c|);
      AppendMemUnsafe(c);
    }

    /** strbuf_append_string, which looks for room byte by byte; with room enough it does not resize. */
    method AppendString(str: seq<Byte>)
      requires Valid()
      modifies this, buf
      ensures Valid() && Contents() == old(Contents()) + str && (buf == old(buf) || fresh(buf))
      ensures old(EmptyLength()) >= |str| ==> buf == old(buf) && EmptyLength() == old(EmptyLength()) - |str|
    {
      var space := EmptyLength();
      for i := 0 to |str|
        invariant Valid() && space == EmptyLength() && Contents() == old(Contents()) + str[..i]
        invariant buf == old(buf) || fresh(buf)
        invariant old(EmptyLength()) >= |str| ==> buf == old(buf) && space == old(EmptyLength()) - i
      {
        if space < 1 {
          Resize(length + 1);
          space := EmptyLength();
        }
        AppendCharUnsafe(str[i]);
        space := space - 1;
      }
    }

    /** strbuf_ensure_null */
    method EnsureNull()
      requires Valid()
      modifies buf
      ensures Valid() && Contents() == old(Contents()) && buf[length] == 0
    {
      buf[length] := 0;
    }
  }

  lemma Larger(size: nat, factor: nat, k: nat)
    requires size > 0 && factor >= 2
    ensures size * Pow(factor, k) * factor == size * Pow(factor, k + 1)
    ensures size * Pow(factor, k) > 0 ==> size * Pow(factor, k) * factor > size * Pow(factor, k)
  {
    MulAssoc(size, Pow(factor, k), factor);
    MulComm(factor, Pow(factor, k));
    var n := size * Pow(factor, k);
    if n > 0 {
      MulLt(1, factor, n);
    }
  }
}
