/** The decoder of lua_cjson.c. */
module JsonDecode {
  import opened Bytes
  import opened JsonBuffer
  import opened JsonParsing
  import opened JsonValues

  /** Failed is an error raised; Fractional a number that fpconv_strtod converts, which is not modelled. */
  datatype Result = Ok(value: Value) | Failed | Fractional

  ghost predicate Agrees(r: Result, p: Parsed<Value>)
  {
    match p
    case Done(v, _) => r == Ok(v)
    case Fail => r == Failed
    case Unmodelled => r == Result.Fractional
  }

  lemma Prepended(p: seq<Byte>, q: seq<Byte>, r: Option<(seq<Byte>, seq<Byte>)>)
    ensures Prepend(p, Prepend(q, r)) == Prepend(p + q, r)
  {
    if r.Some? {
      assert p + (q + r.value.0) == p + q + r.value.0;
    }
  }

  lemma PrependNone(p: seq<Byte>)
    ensures Prepend(p, None) == None
  {
  }

  lemma PrependNothing(r: Option<(seq<Byte>, seq<Byte>)>)
    ensures Prepend([], r) == r
  {
    if r.Some? {
      assert [] + r.value.0 == r.value.0;
    }
  }

  lemma Rest(data: seq<Byte>, i: nat, k: nat)
    requires i + k <= |data|
    ensures data[i..][k..] == data[i + k..]
  {
  }

  class Parser {
    const data: seq<Byte>
    var ptr: nat
    const tmp: StrBuf
    const opts: Options
    var currentDepth: nat

    /** The buffer for strings can hold the whole text. */
    ghost predicate Valid()
      reads this`ptr, tmp
    {
      ptr <= |data| && tmp.Valid() && tmp.buf.Length > |data|
    }

    constructor (data: seq<Byte>, opts: Options)
      ensures Valid() && this.data == data && this.opts == opts && ptr == 0 && currentDepth == 0
      ensures fresh(tmp) && fresh(tmp.buf)
    {
      this.data, this.opts, ptr, currentDepth := data, opts, 0, 0;
      tmp := new StrBuf(|data|, 2);
    }

    /** The bytes of the text behind ptr, or the NUL at its end. */
    function Peek(k: nat): (b: Byte)
      requires Valid()
      reads this`ptr, tmp
      ensures b == At(data[ptr..], k)
    {
      if ptr + k < |data| then data[ptr + k] else 0
    }

    ghost function Left(): seq<Byte>
      requires Valid()
      reads this`ptr, tmp
    {
      data[ptr..]
    }

    /** json_append_unicode_escape; that the bytes fit is what the length of the escape guarantees. */
    method AppendUnicodeEscape() returns (ok: bool)
      requires Valid() && tmp.length <= ptr
      modifies this`ptr, tmp`length, tmp.buf
      ensures Valid() && tmp.length <= ptr
      ensures var u := UnicodeEscape(old(Left()));
        ok == u.Some? && (ok ==> ptr == old(ptr) + u.value.1 && tmp.Contents() == old(tmp.Contents()) + u.value.0)
      ensures !ok ==> ptr == old(ptr)
    {
      var u := UnicodeEscape(data[ptr..]);
      if u.None? {
        return false;
      }
      tmp.AppendMemUnsafe(u.value.0);
      ptr := ptr + u.value.1;
      ok := true;
    }

    /** One round of the loop of json_next_string_token; done says that an error was met. */
    method StringStep() returns (failed: bool)
      requires Valid() && tmp.length <= ptr && Peek(0) != 34
      modifies this`ptr, tmp`length, tmp.buf
      ensures Valid() && tmp.length <= ptr && ptr >= old(ptr)
      ensures failed ==> StringBody(old(Left())).None?
      ensures !failed ==> ptr > old(ptr) && tmp.length >= old(tmp.length) && tmp.Contents()[..old(tmp.length)] == old(tmp.Contents())
      ensures !failed ==> StringBody(old(Left())) == Prepend(tmp.Contents()[old(tmp.length)..], StringBody(Left()))
    {
      hide UnicodeEscape;
      ghost var s := Left();
      var ch := Peek(0);
      if ch == 0 {
        return true;
      }
      if ch == 92 {
        ch := EscapeChar(Peek(1));
        if ch == 117 {
          var ok := AppendUnicodeEscape();
          if ok {
            Rest(data, old(ptr), UnicodeEscape(s).value.1);
            return false;
          }
          return true;
        }
        if ch == 0 {
          return true;
        }
        ptr := ptr + 1;
      }
      Rest(data, old(ptr), ptr + 1 - old(ptr));
      tmp.AppendCharUnsafe(ch);
      ptr := ptr + 1;
      failed := false;
    }

    /** json_next_string_token */
    method NextStringToken() returns (token: Token)
      requires Valid() && Peek(0) == 34
      modifies this`ptr, tmp`length, tmp.buf
      ensures Valid() && ptr > old(ptr)
      ensures var b := StringBody(old(Left())[1..]);
        if b.None? then token == Bad else token == String(b.value.0) && Left() == b.value.1
    {
      hide StringBody;
      Rest(data, ptr, 1);
      ptr := ptr + 1;
      tmp.Reset();
      ghost var s := Left();
      hide Prepend;
      PrependNothing(StringBody(s));
      while Peek(0) != 34
        invariant Valid() && tmp.length <= ptr && ptr > old(ptr)
        invariant StringBody(s) == Prepend(tmp.Contents(), StringBody(Left()))
        decreases |data| - ptr
      {
        ghost var had := tmp.Contents();
        var failed := StringStep();
        if failed {
          PrependNone(had);
          return Bad;
        }
        Prepended(had, tmp.Contents()[|had|..], StringBody(Left()));
        assert had + tmp.Contents()[|had|..] == tmp.Contents();
      }
      Closing(tmp.Contents(), Left());
      Rest(data, ptr, 1);
      ptr := ptr + 1;
      tmp.EnsureNull();
      token := String(tmp.buf[..tmp.length]);
    }

    /** json_next_number_token */
    method NextNumberToken() returns (token: Token)
      requires Valid()
      modifies this`ptr
      ensures Valid() && token == NumberToken(old(Left())).0 && Left() == NumberToken(old(Left())).1
      ensures ptr >= old(ptr) + Weight(token)
    {
      hide Strtoll;
      var n := Strtoll(data[ptr..]);
      if n.1 == 0 {
        return Bad;
      }
      var c := Peek(n.1);
      if c == 46 || c == 101 || c == 69 {
        return Token.Fractional;
      }
      Rest(data, ptr, n.1);
      ptr := ptr + n.1;
      token := Integer(n.0);
    }

    /** The loop over white space. */
    method EatSpace()
      requires Valid()
      modifies this`ptr
      ensures Valid() && Left() == SkipSpace(old(Left())) && ptr >= old(ptr)
    {
      while Space(Peek(0))
        invariant Valid() && SkipSpace(Left()) == SkipSpace(old(Left())) && ptr >= old(ptr)
        decreases |data| - ptr
      {
        Rest(data, ptr, 1);
        ptr := ptr + 1;
      }
    }

    /** json_next_token; what is left behind a bad token does not matter, as an error is raised. */
    method Next() returns (token: Token)
      requires Valid()
      modifies this`ptr, tmp`length, tmp.buf
      ensures Valid() && token == NextToken(old(Left()), opts.lax).0
      ensures token != Bad ==> Left() == NextToken(old(Left()), opts.lax).1
      ensures ptr >= old(ptr) + Weight(token)
    {
      hide StringBody, NumberToken, SkipSpace, InvalidNumber;
      SpaceGone(Left(), opts.lax);
      EatSpace();
      var c := Peek(0);
      if c == 0 {
        return End;
      }
      Rest(data, ptr, 1);
      match c
      case 123 =>
        ptr, token := ptr + 1, ObjBegin;
      case 125 =>
        ptr, token := ptr + 1, ObjEnd;
      case 91 =>
        ptr, token := ptr + 1, ArrBegin;
      case 93 =>
        ptr, token := ptr + 1, ArrEnd;
      case 44 =>
        ptr, token := ptr + 1, Comma;
      case 58 =>
        ptr, token := ptr + 1, Colon;
      case 34 =>
        token := NextStringToken();
      case _ =>
        token := Other(c);
    }

    /** The tokens that begin with a digit, a sign or a letter. */
    method Other(c: Byte) returns (token: Token)
      requires Valid() && c == Peek(0) && !Space(c) && c != 0
      requires c != 123 && c != 125 && c != 91 && c != 93 && c != 44 && c != 58 && c != 34
      modifies this`ptr
      ensures Valid() && token == NextToken(old(Left()), opts.lax).0
      ensures token != Bad ==> Left() == NextToken(old(Left()), opts.lax).1
      ensures ptr >= old(ptr) + Weight(token)
    {
      hide StringBody, NumberToken, InvalidNumber;
      ghost var s := Left();
      if c == 45 || IsDigit(c) {
        if !opts.lax && InvalidNumber(data[ptr..]) {
          return Bad;
        }
        token := NextNumberToken();
      } else if Begins(data[ptr..], TRUE) {
        Rest(data, ptr, 4);
        ptr, token := ptr + 4, Boolean(true);
      } else if Begins(data[ptr..], FALSE) {
        Rest(data, ptr, 5);
        ptr, token := ptr + 5, Boolean(false);
      } else if Begins(data[ptr..], NULL) {
        Rest(data, ptr, 4);
        ptr, token := ptr + 4, NullToken;
      } else if opts.lax && InvalidNumber(data[ptr..]) && Unknown(c) {
        token := NextNumberToken();
      } else {
        token := Bad;
      }
    }

    /** json_process_value; where the original raises an error, it does not return. */
    method ProcessValue(token: Token) returns (r: Result)
      requires Valid() && currentDepth <= opts.maxDepth
      modifies this`ptr, this`currentDepth, tmp`length, tmp.buf
      ensures Valid()
      ensures Agrees(r, ParseValue(token, old(Left()), old(currentDepth), opts))
      ensures r.Ok? ==> Left() == ParseValue(token, old(Left()), old(currentDepth), opts).rest && currentDepth == old(currentDepth)
      decreases |data| - ptr + Weight(token), 1
    {
      match token
      case String(s) => r := Ok(Str(s));
      case Integer(n) => r := Ok(Int(n));
      case Boolean(b) => r := Ok(Bool(b));
      case NullToken => r := Ok(Null);
      case Fractional => r := Result.Fractional;
      case ObjBegin => r := ObjectContext();
      case ArrBegin => r := ArrayContext();
      case _ => r := Failed;
    }

    /** json_parse_object_context */
    method ObjectContext() returns (r: Result)
      requires Valid() && currentDepth <= opts.maxDepth
      modifies this`ptr, this`currentDepth, tmp`length, tmp.buf
      ensures Valid()
      ensures Agrees(r, ParseValue(ObjBegin, old(Left()), old(currentDepth), opts))
      ensures r.Ok? ==> Left() == ParseValue(ObjBegin, old(Left()), old(currentDepth), opts).rest && currentDepth == old(currentDepth)
      decreases |data| - ptr + 1, 0
    {
      hide NextToken, ParseMembers;
      currentDepth := currentDepth + 1;
      if currentDepth > opts.maxDepth {
        return Failed;
      }
      var token := Next();
      if token == ObjEnd {
        currentDepth := currentDepth - 1;
        return Ok(Obj([]));
      }
      if token == Bad {
        BadMembers(NextToken(old(Left()), opts.lax).1, currentDepth, opts, []);
        return Failed;
      }
      r := Members(token);
    }

    /** One round of the loop of json_parse_object_context. */
    method MemberStep(token: Token, ms: seq<Member>) returns (done: bool, r: Result, next: Token, ms': seq<Member>)
      requires Valid() && 0 < currentDepth <= opts.maxDepth && token != Bad
      modifies this`ptr, this`currentDepth, tmp`length, tmp.buf
      ensures Valid()
      ensures done ==> Agrees(r, ParseMembers(token, old(Left()), old(currentDepth), opts, ms))
      ensures done && r.Ok? ==> Left() == ParseMembers(token, old(Left()), old(currentDepth), opts, ms).rest
      ensures done && r.Ok? ==> currentDepth == old(currentDepth) - 1
      ensures !done ==> currentDepth == old(currentDepth) && next != Bad && ptr > old(ptr)
      ensures !done ==> |data| - ptr + Weight(next) < |data| - old(ptr) + Weight(token)
      ensures !done ==> ParseMembers(next, Left(), currentDepth, opts, ms') ==
                        ParseMembers(token, old(Left()), old(currentDepth), opts, ms)
      decreases |data| - ptr + Weight(token), 2
    {
      hide NextToken, ParseValue, Put, StrBuf.Contents, At;
      done, r, next, ms' := true, Failed, token, ms;
      if !token.String? {
        return;
      }
      next := Next();
      if next != Colon {
        return;
      }
      ghost var u := Left();
      next := Next();
      BadValue(NextToken(u, opts.lax).1, currentDepth, opts);
      BadValue(Left(), currentDepth, opts);
      r := ProcessValue(next);
      if !r.Ok? {
        return;
      }
      ms' := Put(ms, token.s, r.value);
      next := Next();
      if next == ObjEnd {
        currentDepth := currentDepth - 1;
        r := Ok(Obj(ms'));
        return;
      }
      if next != Comma {
        r := Failed;
        return;
      }
      u := Left();
      next := Next();
      if next == Bad {
        BadMembers(NextToken(u, opts.lax).1, currentDepth, opts, ms');
        r := Failed;
        return;
      }
      done := false;
    }

    /** The loop of json_parse_object_context. */
    method Members(token0: Token) returns (r: Result)
      requires Valid() && 0 < currentDepth <= opts.maxDepth && token0 != Bad
      modifies this`ptr, this`currentDepth, tmp`length, tmp.buf
      ensures Valid()
      ensures Agrees(r, ParseMembers(token0, old(Left()), old(currentDepth), opts, []))
      ensures r.Ok? ==> Left() == ParseMembers(token0, old(Left()), old(currentDepth), opts, []).rest
      ensures r.Ok? ==> currentDepth == old(currentDepth) - 1
      decreases |data| - ptr + Weight(token0), 3
    {
      hide ParseMembers;
      var done, token, ms := false, token0, [];
      r := Failed;
      while !done
        invariant Valid()
        invariant !done ==> currentDepth == old(currentDepth) && token != Bad
        invariant !done ==> ParseMembers(token, Left(), currentDepth, opts, ms) ==
                            ParseMembers(token0, old(Left()), old(currentDepth), opts, [])
        invariant !done ==> |data| - ptr + Weight(token) <= |data| - old(ptr) + Weight(token0)
        invariant done ==> Agrees(r, ParseMembers(token0, old(Left()), old(currentDepth), opts, []))
        invariant done && r.Ok? ==> Left() == ParseMembers(token0, old(Left()), old(currentDepth), opts, []).rest
        invariant done && r.Ok? ==> currentDepth == old(currentDepth) - 1
        decreases if done then 0 else 1 + |data| - ptr + Weight(token)
      {
        done, r, token, ms := MemberStep(token, ms);
      }
    }

    /** json_parse_array_context */
    method ArrayContext() returns (r: Result)
      requires Valid() && currentDepth <= opts.maxDepth
      modifies this`ptr, this`currentDepth, tmp`length, tmp.buf
      ensures Valid()
      ensures Agrees(r, ParseValue(ArrBegin, old(Left()), old(currentDepth), opts))
      ensures r.Ok? ==> Left() == ParseValue(ArrBegin, old(Left()), old(currentDepth), opts).rest && currentDepth == old(currentDepth)
      decreases |data| - ptr + 1, 0
    {
      hide NextToken, ParseItems;
      currentDepth := currentDepth + 1;
      if currentDepth > opts.maxDepth {
        return Failed;
      }
      var token := Next();
      if token == ArrEnd {
        currentDepth := currentDepth - 1;
        return Ok(Obj([]));
      }
      if token == Bad {
        BadItems(NextToken(old(Left()), opts.lax).1, currentDepth, opts, []);
        return Failed;
      }
      r := Items(token);
    }

    /** One round of the loop of json_parse_array_context. */
    method ItemStep(token: Token, items: seq<Value>) returns (done: bool, r: Result, next: Token, items': seq<Value>)
      requires Valid() && 0 < currentDepth <= opts.maxDepth && token != Bad
      modifies this`ptr, this`currentDepth, tmp`length, tmp.buf
      ensures Valid()
      ensures done ==> Agrees(r, ParseItems(token, old(Left()), old(currentDepth), opts, items))
      ensures done && r.Ok? ==> Left() == ParseItems(token, old(Left()), old(currentDepth), opts, items).rest
      ensures done && r.Ok? ==> currentDepth == old(currentDepth) - 1
      ensures !done ==> currentDepth == old(currentDepth) && next != Bad && ptr > old(ptr)
      ensures !done ==> |data| - ptr + Weight(next) < |data| - old(ptr) + Weight(token)
      ensures !done ==> ParseItems(next, Left(), currentDepth, opts, items') ==
                        ParseItems(token, old(Left()), old(currentDepth), opts, items)
      decreases |data| - ptr + Weight(token), 2
    {
      hide NextToken, ParseValue, StrBuf.Contents, At;
      done, r, next, items' := true, Failed, token, items;
      r := ProcessValue(token);
      if !r.Ok? {
        return;
      }
      items' := items + [r.value];
      next := Next();
      if next == ArrEnd {
        currentDepth := currentDepth - 1;
        r := Ok(Arr(items'));
        return;
      }
      if next != Comma {
        r := Failed;
        return;
      }
      ghost var u := Left();
      next := Next();
      if next == Bad {
        BadItems(NextToken(u, opts.lax).1, currentDepth, opts, items');
        r := Failed;
        return;
      }
      done := false;
    }

    /** The loop of json_parse_array_context. */
    method Items(token0: Token) returns (r: Result)
      requires Valid() && 0 < currentDepth <= opts.maxDepth && token0 != Bad
      modifies this`ptr, this`currentDepth, tmp`length, tmp.buf
      ensures Valid()
      ensures Agrees(r, ParseItems(token0, old(Left()), old(currentDepth), opts, []))
      ensures r.Ok? ==> Left() == ParseItems(token0, old(Left()), old(currentDepth), opts, []).rest
      ensures r.Ok? ==> currentDepth == old(currentDepth) - 1
      decreases |data| - ptr + Weight(token0), 3
    {
      hide ParseItems;
      var done, token, items := false, token0, [];
      r := Failed;
      while !done
        invariant Valid()
        invariant !done ==> currentDepth == old(currentDepth) && token != Bad
        invariant !done ==> ParseItems(token, Left(), currentDepth, opts, items) ==
                            ParseItems(token0, old(Left()), old(currentDepth), opts, [])
        invariant !done ==> |data| - ptr + Weight(token) <= |data| - old(ptr) + Weight(token0)
        invariant done ==> Agrees(r, ParseItems(token0, old(Left()), old(currentDepth), opts, []))
        invariant done && r.Ok? ==> Left() == ParseItems(token0, old(Left()), old(currentDepth), opts, []).rest
        invariant done && r.Ok? ==> currentDepth == old(currentDepth) - 1
        decreases if done then 0 else 1 + |data| - ptr + Weight(token)
      {
        done, r, token, items := ItemStep(token, items);
      }
    }

    /** json_decode */
    method Run() returns (r: Result)
      requires Valid() && ptr == 0 && currentDepth == 0
      modifies this`ptr, this`currentDepth, tmp`length, tmp.buf
      ensures Agrees(r, Decode(data, opts))
      ensures r.Ok? ==> Valid() && currentDepth == 0 && At(Left(), 0) == 0
    {
      if |data| >= 2 && (data[0] == 0 || data[1] == 0) {
        return Failed;
      }
      hide NextToken, ParseValue, Decode, StrBuf.Contents, At;
      assert data[0..] == data;
      DecodeIs(data, opts);
      var token := Next();
      BadValue(NextToken(data, opts.lax).1, 0, opts);
      BadValue(Left(), 0, opts);
      r := ProcessValue(token);
      if !r.Ok? {
        return;
      }
      ghost var rest := Left();
      token := Next();
      EndsAt(rest, opts.lax);
      if token != End {
        r := Failed;
      }
    }
  }

  lemma DecodeIs(data: seq<Byte>, opts: Options)
    requires !(|data| >= 2 && (data[0] == 0 || data[1] == 0))
    ensures var p := ParseValue(NextToken(data, opts.lax).0, NextToken(data, opts.lax).1, 0, opts);
      Decode(data, opts) ==
        if !p.Done? then p
        else if NextToken(p.rest, opts.lax).0 == End then Done(p.value, NextToken(p.rest, opts.lax).1) else Fail
  {
  }

  lemma EndsAt(s: seq<Byte>, lax: bool)
    ensures NextToken(s, lax).0.End? ==> At(NextToken(s, lax).1, 0) == 0
  {
  }

  lemma BadValue(s: seq<Byte>, depth: nat, opts: Options)
    ensures ParseValue(Bad, s, depth, opts) == Fail
  {
  }

  lemma BadItems(s: seq<Byte>, depth: nat, opts: Options, items: seq<Value>)
    ensures ParseItems(Bad, s, depth, opts, items) == Fail
  {
  }

  lemma BadMembers(s: seq<Byte>, depth: nat, opts: Options, ms: seq<Member>)
    ensures ParseMembers(Bad, s, depth, opts, ms) == Fail
  {
  }

  lemma SpaceGone(s: seq<Byte>, lax: bool)
    ensures NextToken(SkipSpace(s), lax) == NextToken(s, lax)
  {
  }

  lemma Closing(p: seq<Byte>, s: seq<Byte>)
    requires At(s, 0) == 34
    ensures Prepend(p, StringBody(s)) == Some((p, s[1..]))
  {
    assert p + [] == p;
  }
}
