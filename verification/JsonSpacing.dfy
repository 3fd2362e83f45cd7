/** White space between the tokens of a text does not matter, and the parser looks at nothing but the tokens. */
module JsonSpacing {
  import opened Bytes
  import opened JsonParsing
  import opened JsonRoundTrip
  import opened JsonValues

  /** Blanks, tabs, line feeds and carriage returns. */
  predicate White(w: seq<Byte>)
  {
    forall k :: 0 <= k < |w| ==> w[k] == 32 || w[k] == 9 || w[k] == 10 || w[k] == 13
  }

  lemma {:induction false} SkipWhite(w: seq<Byte>, s: seq<Byte>)
    requires White(w)
    ensures SkipSpace(w + s) == SkipSpace(s)
  {
    if w == [] {
      Alone(s);
    } else {
      SkipWhite(w[1..], s);
      assert (w + s)[1..] == w[1..] + s;
    }
  }

  /** White space in front of a token is skipped. */
  lemma WhiteIgnored(w: seq<Byte>, s: seq<Byte>, lax: bool)
    requires White(w)
    ensures NextToken(w + s, lax) == NextToken(s, lax)
  {
    SkipWhite(w, s);
  }

  /** Any other byte that begins no token is an error, where the text stands. */
  lemma NoTokenBegins(s: seq<Byte>, lax: bool)
    requires s != [] && s[0] != 0 && s[0] != 32 && s[0] != 9 && s[0] != 10 && s[0] != 13
    requires s[0] != 34 && s[0] != 44 && s[0] != 58 && s[0] != 91 && s[0] != 93 && s[0] != 123 && s[0] != 125
    requires s[0] != 45 && !(48 <= s[0] <= 57) && s[0] != 102 && s[0] != 110 && s[0] != 116
    requires lax ==> s[0] != 43 && s[0] != 73 && s[0] != 78 && s[0] != 105
    ensures NextToken(s, lax) == (Bad, s)
  {
  }

  // ----- the parser and the tokens

  /** The tokens of a text up to its end or to what is no token. */
  ghost function Tokens(s: seq<Byte>, lax: bool): (ts: seq<Token>)
    ensures ts != []
    decreases |s|
  {
    var t := NextToken(s, lax);
    if Weight(t.0) == 0 then [t.0] else [t.0] + Tokens(t.1, lax)
  }

  lemma TokensStep(s: seq<Byte>, lax: bool)
    ensures var t := NextToken(s, lax);
      Tokens(s, lax)[0] == t.0 && (Weight(t.0) == 1 ==> Tokens(s, lax)[1..] == Tokens(t.1, lax))
  {
  }

  /** Two texts with the same tokens from here on. */
  ghost predicate Alike(s: seq<Byte>, t: seq<Byte>, lax: bool)
  {
    Tokens(s, lax) == Tokens(t, lax)
  }

  lemma AlikeStep(s: seq<Byte>, t: seq<Byte>, lax: bool)
    requires Alike(s, t, lax)
    ensures var a, b := NextToken(s, lax), NextToken(t, lax);
      a.0 == b.0 && (Weight(a.0) == 1 ==> Alike(a.1, b.1, lax))
  {
    TokensStep(s, lax);
    TokensStep(t, lax);
    hide Tokens, NextToken;
  }

  ghost predicate Same(r: Parsed<Value>, q: Parsed<Value>, lax: bool)
  {
    match r
    case Fail => q.Fail?
    case Unmodelled => q.Unmodelled?
    case Done(v, rest) => q.Done? && q.value == v && Alike(rest, q.rest, lax)
  }

  /** A token, with the same behind it. */
  ghost predicate Ready(token: Token, s: seq<Byte>, t: seq<Byte>, lax: bool)
  {
    Weight(token) == 0 || Alike(s, t, lax)
  }

  lemma {:induction false} SameValue(token: Token, s: seq<Byte>, t: seq<Byte>, depth: nat, opts: Options)
    requires Ready(token, s, t, opts.lax)
    ensures Same(ParseValue(token, s, depth, opts), ParseValue(token, t, depth, opts), opts.lax)
    decreases |s| + Weight(token), 1
  {
    hide NextToken, Alike, ParseMembers, ParseItems;
    if (token.ObjBegin? || token.ArrBegin?) && depth + 1 <= opts.maxDepth {
      AlikeStep(s, t, opts.lax);
      var a, b := NextToken(s, opts.lax), NextToken(t, opts.lax);
      if token.ObjBegin? && a.0 != ObjEnd {
        SameMembers(a.0, a.1, b.1, depth + 1, opts, []);
      } else if token.ArrBegin? && a.0 != ArrEnd {
        SameItems(a.0, a.1, b.1, depth + 1, opts, []);
      }
    }
  }

  lemma {:induction false} SameMembers(token: Token, s: seq<Byte>, t: seq<Byte>, depth: nat, opts: Options, ms: seq<Member>)
    requires Ready(token, s, t, opts.lax)
    ensures Same(ParseMembers(token, s, depth, opts, ms), ParseMembers(token, t, depth, opts, ms), opts.lax)
    decreases |s| + Weight(token), 2
  {
    hide NextToken, Alike, ParseValue, Put;
    if token.String? {
      var lax := opts.lax;
      AlikeStep(s, t, lax);
      var a, b := NextToken(s, lax), NextToken(t, lax);
      if a.0 == Colon {
        AlikeStep(a.1, b.1, lax);
        var c, d := NextToken(a.1, lax), NextToken(b.1, lax);
        SameValue(c.0, c.1, d.1, depth, opts);
        var r, q := ParseValue(c.0, c.1, depth, opts), ParseValue(d.0, d.1, depth, opts);
        if r.Done? {
          AlikeStep(r.rest, q.rest, lax);
          var e, f := NextToken(r.rest, lax), NextToken(q.rest, lax);
          if e.0 == Comma {
            AlikeStep(e.1, f.1, lax);
            var k, l := NextToken(e.1, lax), NextToken(f.1, lax);
            SameMembers(k.0, k.1, l.1, depth, opts, Put(ms, token.s, r.value));
          }
        }
      }
    }
  }

  lemma {:induction false} SameItems(token: Token, s: seq<Byte>, t: seq<Byte>, depth: nat, opts: Options, items: seq<Value>)
    requires Ready(token, s, t, opts.lax)
    ensures Same(ParseItems(token, s, depth, opts, items), ParseItems(token, t, depth, opts, items), opts.lax)
    decreases |s| + Weight(token), 2
  {
    hide NextToken, Alike, ParseValue;
    var lax := opts.lax;
    SameValue(token, s, t, depth, opts);
    var r, q := ParseValue(token, s, depth, opts), ParseValue(token, t, depth, opts);
    if r.Done? {
      AlikeStep(r.rest, q.rest, lax);
      var e, f := NextToken(r.rest, lax), NextToken(q.rest, lax);
      if e.0 == Comma {
        AlikeStep(e.1, f.1, lax);
        var k, l := NextToken(e.1, lax), NextToken(f.1, lax);
        SameItems(k.0, k.1, l.1, depth, opts, items + [r.value]);
      }
    }
  }

  /** What comes of a text, but for the bytes behind it. */
  ghost predicate Agrees(r: Parsed<Value>, q: Parsed<Value>)
  {
    (r.Fail? <==> q.Fail?) && (r.Done? <==> q.Done?) && (r.Done? ==> r.value == q.value)
  }

  /** Texts with the same tokens decode to the same. */
  lemma SameDecode(s: seq<Byte>, t: seq<Byte>, opts: Options)
    requires Alike(s, t, opts.lax) && NoNul(s) && NoNul(t)
    ensures Agrees(Decode(s, opts), Decode(t, opts))
  {
    hide NextToken, Alike, ParseValue;
    AlikeStep(s, t, opts.lax);
    var a, b := NextToken(s, opts.lax), NextToken(t, opts.lax);
    SameValue(a.0, a.1, b.1, 0, opts);
    var r, q := ParseValue(a.0, a.1, 0, opts), ParseValue(b.0, b.1, 0, opts);
    if r.Done? {
      AlikeStep(r.rest, q.rest, opts.lax);
    }
  }

  // ----- texts with white space

  /** A token and the white space in front of it. */
  datatype Piece = Piece(gap: seq<Byte>, token: Token)

  /** How the encoder writes a token. */
  ghost function Spell(t: Token): seq<Byte>
  {
    match t
    case ObjBegin => [123]
    case ObjEnd => [125]
    case ArrBegin => [91]
    case ArrEnd => [93]
    case Colon => [58]
    case Comma => [44]
    case String(s) => StringText(s)
    case Integer(n) => Decimal(n)
    case Boolean(b) => if b then TRUE else FALSE
    case NullToken => NULL
    case _ => []
  }

  predicate Spellable(t: Token)
  {
    match t
    case Integer(n) => -0x8000_0000_0000_0000 <= n <= 0x7fff_ffff_ffff_ffff
    case End => false
    case Fractional => false
    case Bad => false
    case _ => true
  }

  /** What may follow an integer. */
  predicate Closer(t: Token)
  {
    t.Comma? || t.ArrEnd? || t.ObjEnd?
  }

  /** Tokens that can be told apart when they are written one behind the other. */
  ghost predicate Apart(ts: seq<Token>)
  {
    && (forall k :: 0 <= k < |ts| ==> Spellable(ts[k]))
    && forall k :: 0 <= k < |ts| - 1 && ts[k].Integer? ==> Closer(ts[k + 1])
  }

  ghost function Bare(ps: seq<Piece>): (ts: seq<Token>)
    ensures |ts| == |ps| && forall k :: 0 <= k < |ts| ==> ts[k] == ps[k].token
  {
    seq(|ps|, k requires 0 <= k < |ps| => ps[k].token)
  }

  ghost predicate Spaced(ps: seq<Piece>)
  {
    forall k :: 0 <= k < |ps| ==> White(ps[k].gap)
  }

  ghost function Written(ps: seq<Piece>, last: seq<Byte>): seq<Byte>
  {
    if ps == [] then last else ps[0].gap + (Spell(ps[0].token) + Written(ps[1..], last))
  }

  lemma SpellReads(token: Token, t: seq<Byte>, lax: bool)
    requires Spellable(token) && (token.Integer? ==> Delimited(t))
    ensures NextToken(Spell(token) + t, lax) == (token, t) && Weight(token) == 1
  {
    hide NextToken, Delimited, Decimal, StringText;
    match token
    case ObjBegin => OneByte(123, t, lax);
    case ObjEnd => OneByte(125, t, lax);
    case ArrBegin => OneByte(91, t, lax);
    case ArrEnd => OneByte(93, t, lax);
    case Colon => OneByte(58, t, lax);
    case Comma => OneByte(44, t, lax);
    case String(s) => StringToken(s, t, lax);
    case Integer(n) => IntegerToken(n, t, lax);
    case Boolean(_) => Words(t, lax);
    case NullToken => Words(t, lax);
  }

  lemma CloserFollows(ps: seq<Piece>, last: seq<Byte>)
    requires Spaced(ps) && White(last) && (ps != [] ==> Closer(ps[0].token))
    ensures Delimited(Written(ps, last))
  {
    if ps != [] {
      var s := ps[0].gap + (Spell(ps[0].token) + Written(ps[1..], last));
      assert White(ps[0].gap);
      assert s[0] == if ps[0].gap == [] then Spell(ps[0].token)[0] else ps[0].gap[0];
    }
  }

  /** A text written from tokens reads as these tokens, however much white space is between them. */
  lemma {:induction false} WrittenReads(ps: seq<Piece>, last: seq<Byte>, lax: bool)
    requires Apart(Bare(ps)) && Spaced(ps) && White(last)
    ensures Tokens(Written(ps, last), lax) == Bare(ps) + [End]
    decreases |ps|
  {
    hide NextToken, White, Spell, Delimited;
    if ps == [] {
      WhiteIgnored(last, [], lax);
      EndToken(lax);
      assert last + [] == last;
    } else {
      var rest := Written(ps[1..], last);
      assert Bare(ps) == [ps[0].token] + Bare(ps[1..]);
      WrittenReads(ps[1..], last, lax);
      if |ps| > 1 && ps[0].token.Integer? {
        assert Closer(Bare(ps)[1]);
      }
      if ps[0].token.Integer? {
        CloserFollows(ps[1..], last);
      }
      assert Spellable(Bare(ps)[0]);
      SpellReads(ps[0].token, rest, lax);
      WhiteIgnored(ps[0].gap, Spell(ps[0].token) + rest, lax);
    }
  }

  // ----- the tokens of a value

  ghost function TokensOf(v: Value): seq<Token>
    decreases v
  {
    match v
    case Null => [NullToken]
    case Bool(b) => [Boolean(b)]
    case Int(n) => [Integer(n)]
    case Str(s) => [String(s)]
    case Arr(items) => [ArrBegin] + ItemsTokens(items) + [ArrEnd]
    case Obj(ms) => [ObjBegin] + MembersTokens(ms) + [ObjEnd]
  }

  ghost function ItemsTokens(items: seq<Value>): seq<Token>
    decreases items
  {
    if items == [] then []
    else TokensOf(items[0]) + if |items| == 1 then [] else [Comma] + ItemsTokens(items[1..])
  }

  ghost function MembersTokens(ms: seq<Member>): seq<Token>
    decreases ms
  {
    if ms == [] then []
    else [String(ms[0].key), Colon] + TokensOf(ms[0].value) + if |ms| == 1 then [] else [Comma] + MembersTokens(ms[1..])
  }

  ghost function Spelled(ts: seq<Token>): seq<Byte>
  {
    if ts == [] then [] else Spell(ts[0]) + Spelled(ts[1..])
  }

  lemma {:induction false} SpelledJoin(a: seq<Token>, b: seq<Token>)
    ensures Spelled(a + b) == Spelled(a) + Spelled(b)
  {
    hide Spell;
    if a == [] {
      assert a + b == b;
    } else {
      SpelledJoin(a[1..], b);
      assert (a + b)[1..] == a[1..] + b;
      Assoc(Spell(a[0]), Spelled(a[1..]), Spelled(b));
    }
  }

  lemma SpelledOne(t: Token)
    ensures Spelled([t]) == Spell(t)
  {
    assert [t][1..] == [] && Spelled([]) == [];
  }

  /** The text of a value is its tokens, spelled one behind the other. */
  lemma {:induction false} TextIsSpelled(v: Value)
    ensures Spelled(TokensOf(v)) == Text(v)
    decreases v
  {
    match v
    case Arr(items) =>
      ItemsSpelled(items);
      Bracketed(ArrBegin, ItemsTokens(items), ArrEnd);
    case Obj(ms) =>
      MembersSpelled(ms);
      Bracketed(ObjBegin, MembersTokens(ms), ObjEnd);
    case _ => SpelledOne(TokensOf(v)[0]);
  }

  lemma Bracketed(a: Token, ts: seq<Token>, b: Token)
    ensures Spelled([a] + ts + [b]) == Spell(a) + Spelled(ts) + Spell(b)
  {
    SpelledJoin([a] + ts, [b]);
    SpelledJoin([a], ts);
    SpelledOne(a);
    SpelledOne(b);
    hide Spell, Spelled;
  }

  lemma {:induction false} ItemsSpelled(items: seq<Value>)
    ensures Spelled(ItemsTokens(items)) == ItemsText(items)
    decreases items
  {
    hide Spell, Spelled, TokensOf, Text;
    SpellsOf();
    if items != [] {
      TextIsSpelled(items[0]);
      Alone(TokensOf(items[0]));
      EndsAlone(TokensOf(items[0]), Text(items[0]));
      if |items| > 1 {
        ItemsSpelled(items[1..]);
        SpelledJoin(TokensOf(items[0]), [Comma] + ItemsTokens(items[1..]));
        SpelledJoin([Comma], ItemsTokens(items[1..]));
        SpelledOne(Comma);
      }
    }
  }

  lemma {:induction false} MembersSpelled(ms: seq<Member>)
    ensures Spelled(MembersTokens(ms)) == MembersText(ms)
    decreases ms
  {
    hide Spell, Spelled, TokensOf, Text, StringText;
    SpellsOf();
    if ms != [] {
      var a, b := [String(ms[0].key), Colon], TokensOf(ms[0].value);
      TextIsSpelled(ms[0].value);
      SpelledJoin([String(ms[0].key)], [Colon]);
      SpelledOne(String(ms[0].key));
      SpelledOne(Colon);
      SpellsString(ms[0].key);
      SpelledJoin(a, b);
      EndsAlone(a + b, StringText(ms[0].key) + [58] + Text(ms[0].value));
      MembersTextIs(ms);
      assert [String(ms[0].key)] + [Colon] == a;
      if |ms| > 1 {
        MembersSpelled(ms[1..]);
        SpelledJoin(a + b, [Comma] + MembersTokens(ms[1..]));
        SpelledJoin([Comma], MembersTokens(ms[1..]));
        SpelledOne(Comma);
      }
    }
  }

  lemma EndsAlone(ts: seq<Token>, t: seq<Byte>)
    ensures ts + [] == ts && t + [] == t
  {
  }

  lemma SpellsOf()
    ensures Spelled([]) == []
    ensures Spell(Comma) == [44] && Spell(Colon) == [58]
  {
  }

  lemma SpellsString(s: seq<Byte>)
    ensures Spell(String(s)) == StringText(s)
  {
  }

  lemma MembersTextIs(ms: seq<Member>)
    requires ms != []
    ensures MembersText(ms) == StringText(ms[0].key) + [58] + Text(ms[0].value) +
      if |ms| == 1 then [] else [44] + MembersText(ms[1..])
  {
  }

  lemma ApartJoin(a: seq<Token>, b: seq<Token>)
    requires Apart(a) && Apart(b) && (a != [] && b != [] && a[|a| - 1].Integer? ==> Closer(b[0]))
    ensures Apart(a + b)
  {
    hide Spellable;
  }

  /** Tokens of a value can be told apart, and so can the tokens of what may follow it. */
  lemma {:induction false} ValueApart(v: Value)
    requires WellFormed(v)
    ensures Apart(TokensOf(v)) && TokensOf(v) != []
    decreases v
  {
    match v
    case Arr(items) =>
      ItemsApart(items);
      ApartJoin([ArrBegin], ItemsTokens(items));
      ApartJoin([ArrBegin] + ItemsTokens(items), [ArrEnd]);
    case Obj(ms) =>
      MembersApart(ms);
      ApartJoin([ObjBegin], MembersTokens(ms));
      ApartJoin([ObjBegin] + MembersTokens(ms), [ObjEnd]);
    case _ =>
  }

  lemma {:induction false} ItemsApart(items: seq<Value>)
    requires forall k :: 0 <= k < |items| ==> WellFormed(items[k])
    ensures Apart(ItemsTokens(items))
    decreases items
  {
    if items != [] {
      ValueApart(items[0]);
      if |items| > 1 {
        ItemsApart(items[1..]);
        ApartJoin([Comma], ItemsTokens(items[1..]));
        ApartJoin(TokensOf(items[0]), [Comma] + ItemsTokens(items[1..]));
      } else {
        Alone(TokensOf(items[0]));
      }
    }
  }

  lemma {:induction false} MembersApart(ms: seq<Member>)
    requires forall k :: 0 <= k < |ms| ==> WellFormed(ms[k].value)
    ensures Apart(MembersTokens(ms))
    decreases ms
  {
    if ms != [] {
      var a := [String(ms[0].key), Colon];
      ValueApart(ms[0].value);
      ApartJoin(a, TokensOf(ms[0].value));
      if |ms| > 1 {
        MembersApart(ms[1..]);
        ApartJoin([Comma], MembersTokens(ms[1..]));
        ApartJoin(a + TokensOf(ms[0].value), [Comma] + MembersTokens(ms[1..]));
      }
    }
  }

  // ----- whole texts

  ghost function Tight(ts: seq<Token>): (ps: seq<Piece>)
    ensures Spaced(ps) && Bare(ps) == ts
  {
    var ps := seq(|ts|, k requires 0 <= k < |ts| => Piece([], ts[k]));
    assert Bare(ps) == ts;
    ps
  }

  lemma {:induction false} TightIsSpelled(ts: seq<Token>)
    ensures Written(Tight(ts), []) == Spelled(ts)
  {
    if ts != [] {
      TightIsSpelled(ts[1..]);
      assert Tight(ts)[1..] == Tight(ts[1..]);
      hide Spell;
    }
  }

  lemma {:induction false} WrittenNoNul(ps: seq<Piece>, last: seq<Byte>)
    requires Spaced(ps) && White(last)
    ensures NoNul(Written(ps, last))
    decreases |ps|
  {
    if ps != [] {
      assert White(ps[0].gap);
      SpellPrintable(ps[0].token);
      WrittenNoNul(ps[1..], last);
      hide Spell;
    }
  }

  lemma SpellPrintable(t: Token)
    ensures Printable(Spell(t))
  {
    hide StringText, Decimal;
    match t
    case String(s) => StringTextPrintable(s);
    case Integer(n) => DecimalPrintable(n);
    case _ =>
  }

  /** The tokens of a value with white space anywhere between them decode to the value, if its tables are not nested too deep. */
  lemma SpacedDecodes(v: Value, ps: seq<Piece>, last: seq<Byte>, opts: Options)
    requires WellFormed(v) && Bare(ps) == TokensOf(v) && Spaced(ps) && White(last)
    ensures var r := Decode(Written(ps, last), opts);
      if Depth(v) > opts.maxDepth then r == Fail else r.Done? && r.value == v
  {
    hide Decode, Text, Depth, WellFormed, TokensOf, Written, Tokens, Tight, Spelled;
    var ts := TokensOf(v);
    ValueApart(v);
    WrittenReads(ps, last, opts.lax);
    WrittenReads(Tight(ts), [], opts.lax);
    TightIsSpelled(ts);
    TextIsSpelled(v);
    WrittenNoNul(ps, last);
    WrittenNoNul(Tight(ts), []);
    SameDecode(Written(ps, last), Text(v), opts);
    DecodeText(v, opts);
  }
}
