/** How the encoder tells arrays from objects: lua_array_length on the keys of a table. */
module JsonTables {
  import opened JsonValues

  /** A key is a number or something else. */
  datatype Key = NumberKey(k: real) | OtherKey

  datatype Kind = Length(n: int) | Object | TooSparse

  /** An integer no less than 1. */
  predicate Index(key: Key)
  {
    key.NumberKey? && key.k >= 1.0 && key.k.Floor as real == key.k
  }

  function KeyOf(n: int): Key
  {
    NumberKey(n as real)
  }

  /** The indices are 1, 2 and so on. */
  lemma IndexIs(key: Key)
    ensures Index(key) <==> exists n :: n >= 1 && key == KeyOf(n)
  {
    if Index(key) {
      assert key == KeyOf(key.k.Floor);
    }
  }

  function Number(key: Key): int
  {
    if key.NumberKey? then key.k.Floor else 0
  }

  /** The largest index. */
  ghost function Largest(keys: seq<Key>): (m: int)
    ensures m >= 0
  {
    if keys == [] then 0
    else
      var m, k := Largest(keys[..|keys| - 1]), Number(keys[|keys| - 1]);
      if k > m then k else m
  }

  /** It is the largest, and unless there is none it is one of them. */
  lemma {:induction false} LargestIs(keys: seq<Key>)
    ensures forall j :: 0 <= j < |keys| ==> Number(keys[j]) <= Largest(keys)
    ensures Largest(keys) > 0 ==> exists j :: 0 <= j < |keys| && Number(keys[j]) == Largest(keys)
  {
    if keys != [] {
      var n := |keys| - 1;
      LargestIs(keys[..n]);
      assert forall j :: 0 <= j < n ==> keys[..n][j] == keys[j];
      if Number(keys[n]) <= Largest(keys[..n]) && Largest(keys) > 0 {
        var j :| 0 <= j < n && Number(keys[..n][j]) == Largest(keys);
        assert Number(keys[j]) == Largest(keys);
      }
    }
  }

  /** The sparse-array options. */
  datatype Sparse = Sparse(ratio: int, safe: int, convert: bool)

  /** What lua_array_length ought to tell of a table. */
  ghost function LengthOf(keys: seq<Key>, opts: Sparse): Kind
  {
    var m := Largest(keys);
    if exists j :: 0 <= j < |keys| && !Index(keys[j]) then Object
    else if opts.ratio > 0 && m > |keys| * opts.ratio && m > opts.safe then
      if opts.convert then Object else TooSparse
    else Length(m)
  }

  /** lua_array_length */
  method ArrayLength(keys: seq<Key>, opts: Sparse) returns (r: Kind)
    ensures r == LengthOf(keys, opts)
  {
    var max, items := 0, 0;
    for i := 0 to |keys|
      invariant forall j :: 0 <= j < i ==> Index(keys[j])
      invariant items == i && max == Largest(keys[..i])
    {
      if !Index(keys[i]) {
        return Object;
      }
      assert keys[..i + 1][..i] == keys[..i];
      if keys[i].k > max as real {
        max := Number(keys[i]);
      }
      items := items + 1;
    }
    assert keys[..|keys|] == keys;
    if opts.ratio > 0 && max > items * opts.ratio && max > opts.safe {
      return if opts.convert then Object else TooSparse;
    }
    r := Length(max);
  }

  /** The keys are 1 to n, in any order. */
  ghost predicate OneTo(keys: seq<Key>)
  {
    && (forall j :: 0 <= j < |keys| ==> Index(keys[j]) && Number(keys[j]) <= |keys|)
    && (keys != [] ==> exists j :: 0 <= j < |keys| && Number(keys[j]) == |keys|)
  }

  /** Such a table is an array of n items under all options. */
  lemma Dense(keys: seq<Key>, opts: Sparse)
    requires OneTo(keys)
    ensures LengthOf(keys, opts) == Length(|keys|)
  {
    LargestIs(keys);
    if opts.ratio > 0 {
      Times(|keys|, opts.ratio);
    }
  }

  /** The keys of a table. */
  function KeysOf(v: Value): (keys: seq<Key>)
    ensures v.Arr? ==> |keys| == |v.items|
  {
    match v
    case Arr(items) => seq(|items|, j requires 0 <= j < |items| => NumberKey((j + 1) as real))
    case Obj(ms) => seq(|ms|, _ => OtherKey)
    case _ => []
  }

  /** Arrays are told from objects with string keys and from the empty table by a length, whatever the options are. */
  lemma ArraysAreTold(v: Value, opts: Sparse)
    requires WellFormed(v)
    ensures LengthOf(KeysOf(v), opts).Length? && LengthOf(KeysOf(v), opts).n > 0 <==> v.Arr?
    ensures v.Arr? ==> LengthOf(KeysOf(v), opts).n == |v.items|
    ensures !LengthOf(KeysOf(v), opts).TooSparse?
  {
    var keys := KeysOf(v);
    if keys == [] {
      Dense(keys, opts);
    } else if v.Arr? {
      assert Number(keys[|keys| - 1]) == |keys|;
      Dense(keys, opts);
    } else {
      assert !Index(keys[0]);
    }
  }

  lemma Times(n: nat, ratio: int)
    requires ratio > 0
    ensures n <= n * ratio
  {
  }
}
