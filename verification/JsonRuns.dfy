/** Encoder and decoder together. */
module JsonRuns {
  import opened Bytes
  import opened JsonDecode
  import opened JsonEncode
  import opened JsonParsing
  import opened JsonRoundTrip
  import opened JsonSpacing
  import opened JsonValues

  /** A value whose tables are nested no deeper than both limits comes back as it was; a deeper one is refused. */
  method RoundTrip(v: Value, encoder: Encoder, opts: Options) returns (r: Result)
    requires WellFormed(v) && encoder.json.Valid()
    modifies encoder.json, encoder.json.buf
    ensures r == if Depth(v) <= encoder.maxDepth && Depth(v) <= opts.maxDepth then Ok(v) else Failed
  {
    hide WellFormed, Depth, Text, JsonParsing.Decode;
    var ok, text := encoder.Encode(v);
    if !ok {
      return Failed;
    }
    var parser := new Parser(text, opts);
    r := parser.Run();
    DecodeText(v, opts);
  }

  /** White space that others put between the tokens of a value makes no difference. */
  method DecodeSpaced(text: seq<Byte>, opts: Options, ghost v: Value, ghost ps: seq<Piece>, ghost last: seq<Byte>)
    returns (r: Result)
    requires WellFormed(v) && Bare(ps) == TokensOf(v) && Spaced(ps) && White(last) && text == Written(ps, last)
    ensures r == if Depth(v) <= opts.maxDepth then Ok(v) else Failed
  {
    hide WellFormed, Depth, TokensOf, Written, Spaced, White, JsonParsing.Decode;
    var parser := new Parser(text, opts);
    r := parser.Run();
    SpacedDecodes(v, ps, last, opts);
  }

  /** {"a": 1} with a blank behind the colon. */
  method BlankBehindColon() returns (r: Result)
    ensures r == Ok(Obj([Member([97], Int(1))]))
  {
    ghost var ps := [Piece([], ObjBegin), Piece([], String([97])), Piece([], Colon), Piece([32], Integer(1)), Piece([], ObjEnd)];
    ghost var v := Obj([Member([97], Int(1))]);
    BlankWritten(v, ps);
    hide Written, TokensOf, WellFormed, Spaced;
    r := DecodeSpaced([123, 34, 97, 34, 58, 32, 49, 125], Options(false, 1), v, ps, []);
  }

  lemma BlankWritten(v: Value, ps: seq<Piece>)
    requires v == Obj([Member([97], Int(1))])
    requires ps == [Piece([], ObjBegin), Piece([], String([97])), Piece([], Colon), Piece([32], Integer(1)), Piece([], ObjEnd)]
    ensures WellFormed(v) && Depth(v) == 1 && Spaced(ps) && Bare(ps) == TokensOf(v)
    ensures Written(ps, []) == [123, 34, 97, 34, 58, 32, 49, 125]
  {
    BlankValue(v);
    BlankText(ps);
    hide Written, TokensOf, WellFormed, Depth;
    assert Bare(ps) == [ObjBegin, String([97]), Colon, Integer(1), ObjEnd];
  }

  lemma BlankValue(v: Value)
    requires v == Obj([Member([97], Int(1))])
    ensures WellFormed(v) && Depth(v) == 1 && TokensOf(v) == [ObjBegin, String([97]), Colon, Integer(1), ObjEnd]
  {
    assert v.members[1..] == [] && MembersDepth([]) == 0;
    assert MembersTokens(v.members) == [String([97]), Colon, Integer(1)];
  }

  lemma BlankText(ps: seq<Piece>)
    requires ps == [Piece([], ObjBegin), Piece([], String([97])), Piece([], Colon), Piece([32], Integer(1)), Piece([], ObjEnd)]
    ensures Written(ps, []) == [123, 34, 97, 34, 58, 32, 49, 125]
  {
    BlankSpelled();
    assert Written([], []) == [];
    hide Written, Spell;
    Front(ps, 4);
    assert ps[5..] == [];
    assert Written(ps[4..], []) == [125];
    Front(ps, 3);
    assert Written(ps[3..], []) == [32, 49, 125];
    Front(ps, 2);
    assert Written(ps[2..], []) == [58, 32, 49, 125];
    Front(ps, 1);
    assert Written(ps[1..], []) == [34, 97, 34, 58, 32, 49, 125];
    Front(ps, 0);
    assert ps[0..] == ps;
  }

  lemma Front(ps: seq<Piece>, i: nat)
    requires i < |ps|
    ensures Written(ps[i..], []) == ps[i].gap + (Spell(ps[i].token) + Written(ps[i + 1..], []))
  {
    hide Spell;
    assert ps[i..][1..] == ps[i + 1..];
  }

  lemma BlankSpelled()
    ensures Spell(ObjBegin) == [123] && Spell(String([97])) == [34, 97, 34] && Spell(Colon) == [58]
    ensures Spell(Integer(1)) == [49] && Spell(ObjEnd) == [125]
  {
    assert [97][1..] == [] && QuotedAll([]) == [];
  }
}
