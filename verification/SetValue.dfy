/** database/src/set.rs: a set of byte strings, held as machine integers or as bytes. */
module SetValue {
  import opened Machine
  import opened ByteStrings
  import opened Sequences
  import opened DbUtil

  datatype Encoding = Integer(ints: set<Usize>) | Data(members: set<Bytes>)

  function Spelled(ints: set<Usize>): set<Bytes> {
    set n | n in ints :: UsizeToVec(n)
  }

  /** `smembers` as a set: what a client sees. */
  function Denote(enc: Encoding): set<Bytes> {
    match enc
    case Integer(ints) => Spelled(ints)
    case Data(members) => members
  }

  /** The spelling under which an integer set holds `el`. */
  function Normal(el: Bytes): Bytes {
    match VecToUsize(el)
    case Some(n) => UsizeToVec(n)
    case None => el
  }

  lemma NormalChangesPlus(el: Bytes)
    ensures Normal(el) == el <==> !PlusSpelled(el)
  {
    if VecToUsize(el).Some? {
      VecRoundTrip(el);
    }
  }

  lemma SpelledMember(ints: set<Usize>, n: Usize)
    ensures UsizeToVec(n) in Spelled(ints) <==> n in ints
  {
    UsizeRoundTrip(n);
    forall m: Usize | UsizeToVec(m) == UsizeToVec(n)
      ensures m == n
    {
      UsizeRoundTrip(m);
    }
  }

  /** Members of an integer set all parse, and none has a leading `+`. */
  lemma SpelledParses(ints: set<Usize>, v: Bytes)
    requires v in Spelled(ints)
    ensures VecToUsize(v).Some? && VecToUsize(v).value in ints
    ensures UsizeToVec(VecToUsize(v).value) == v && Normal(v) == v
  {
    var n :| n in ints && UsizeToVec(n) == v;
    UsizeRoundTrip(n);
  }

  lemma NormalInSpelled(ints: set<Usize>, el: Bytes)
    ensures Normal(el) in Spelled(ints) <==> VecToUsize(el).Some? && VecToUsize(el).value in ints
  {
    if VecToUsize(el).Some? {
      SpelledMember(ints, VecToUsize(el).value);
    } else if el in Spelled(ints) {
      SpelledParses(ints, el);
    }
  }

  lemma {:induction false} SpelledSize(ints: set<Usize>)
    ensures |Spelled(ints)| == |ints|
  {
    if ints != {} {
      var n :| n in ints;
      SpelledSize(ints - {n});
      SpelledMember(ints - {n}, n);
      assert Spelled(ints) == Spelled(ints - {n}) + {UsizeToVec(n)};
    }
  }

  // ----- Single members ------------------------------------------------------------

  /** The member that `sadd` adds. */
  function Added(enc: Encoding, el: Bytes, maxIntSize: nat): Bytes {
    if enc.Integer? && |enc.ints| < maxIntSize then Normal(el) else el
  }

  /** The member that `srem` removes and `sismember` looks for. */
  function Sought(enc: Encoding, el: Bytes): Bytes {
    if enc.Integer? then Normal(el) else el
  }

  /** Adding keeps the meaning exactly when no `+` spelling meets an integer set with room. */
  lemma SaddExact(enc: Encoding, el: Bytes, maxIntSize: nat)
    ensures Denote(enc) + {Added(enc, el, maxIntSize)} == Denote(enc) + {el}
       <==> !(enc.Integer? && |enc.ints| < maxIntSize && PlusSpelled(el))
  {
    NormalChangesPlus(el);
    if PlusSpelled(el) && enc.Integer? {
      if el in Denote(enc) {
        SpelledParses(enc.ints, el);
      }
      assert el in Denote(enc) + {el};
    }
  }

  /** A lookup is right exactly when it is not fooled by a `+` spelling of a held integer. */
  lemma SoughtExact(enc: Encoding, el: Bytes)
    ensures (Sought(enc, el) in Denote(enc) <==> el in Denote(enc))
       <==> !(enc.Integer? && PlusSpelled(el) && VecToUsize(el).value in enc.ints)
    ensures Denote(enc) - {Sought(enc, el)} == Denote(enc) - {el}
       <==> !(enc.Integer? && PlusSpelled(el) && VecToUsize(el).value in enc.ints)
  {
    NormalChangesPlus(el);
    if enc.Integer? {
      NormalInSpelled(enc.ints, el);
      if el in Denote(enc) {
        SpelledParses(enc.ints, el);
      }
      if Normal(el) != el && Normal(el) in Denote(enc) {
        assert Normal(el) in Denote(enc) - {el};
      }
    }
  }

  // ----- Whole sets ----------------------------------------------------------------

  /** The text +5, which integer sets hold as 5. */
  const PLUS_FIVE: Bytes := [0x2b, 0x35]
  const FIVE: Bytes := [0x35]

  lemma PlusFiveIsFive()
    ensures VecToUsize(PLUS_FIVE) == Some(5) && UsizeToVec(5) == FIVE && Normal(PLUS_FIVE) == FIVE
  {
    assert PLUS_FIVE[1..] == FIVE && FIVE[..0] == [];
    assert Decimal.Value(FIVE) == 5;
  }

  /** SADD k +5 on a new set adds 5; SISMEMBER k +5 then finds it, and SDIFF of {5} and {+5}
      is empty. */
  lemma PlusFiveFools(maxIntSize: nat)
    requires maxIntSize > 0
    ensures Added(Integer({}), PLUS_FIVE, maxIntSize) == FIVE
    ensures PLUS_FIVE !in Denote(Integer({5})) && Sought(Integer({5}), PLUS_FIVE) in Denote(Integer({5}))
    ensures Diff(Integer({5}), [Data({PLUS_FIVE})]) == {}
  {
    PlusFiveIsFive();
    assert Denote(Integer({5})) == {FIVE};
    assert PlusSpelled(PLUS_FIVE);
    assert HoldsPlus(Data({PLUS_FIVE}), FIVE);
    var operands := [Data({PLUS_FIVE})];
    assert Matches(Integer({5}), operands[0], FIVE);
  }

  predicate AllParse(h: set<Bytes>) {
    forall v | v in h :: VecToUsize(v).Some?
  }

  /** No two members of `h` spell the same integer. */
  ghost predicate OneSpellingEach(h: set<Bytes>) {
    forall v, w | v in h && w in h && VecToUsize(v) == VecToUsize(w) :: v == w
  }

  ghost function EncodeSet(h: set<Bytes>): Encoding {
    if AllParse(h) && OneSpellingEach(h) then Integer(ParsedMembers(h)) else Data(h)
  }

  /** A stored result set keeps its members unless it turns into integers and has a `+`. */
  lemma EncodeSetExact(h: set<Bytes>)
    ensures Denote(EncodeSet(h)) == h
       <==> !(AllParse(h) && OneSpellingEach(h) && exists v :: v in h && PlusSpelled(v))
  {
    if AllParse(h) && OneSpellingEach(h) {
      var ints := ParsedMembers(h);
      forall v | v in h
        ensures Normal(v) in Spelled(ints) && (Normal(v) == v <==> !PlusSpelled(v))
      {
        NormalInSpelled(ints, v);
        NormalChangesPlus(v);
      }
      forall v | v in Spelled(ints)
        ensures !PlusSpelled(v) && exists w :: w in h && Normal(w) == v
      {
        SpelledParses(ints, v);
        NormalChangesPlus(v);
        var w :| w in h && VecToUsize(w) == VecToUsize(v);
      }
    }
  }

  /** `o` holds a `+` spelling of `v`. */
  ghost predicate HoldsPlus(o: Encoding, v: Bytes) {
    o.Data? && exists el :: el in o.members && PlusSpelled(el) && Normal(el) == v
  }

  /** Whether the operand `o` counts as holding the member `v` of `self`. */
  ghost predicate Matches(self: Encoding, o: Encoding, v: Bytes) {
    v in Denote(o) || (self.Integer? && HoldsPlus(o, v))
  }

  ghost function Diff(self: Encoding, sets: seq<Encoding>): set<Bytes> {
    set v | v in Denote(self) && forall i :: 0 <= i < |sets| ==> !Matches(self, sets[i], v)
  }

  ghost function Inter(self: Encoding, sets: seq<Encoding>): set<Bytes> {
    set v | v in Denote(self) && forall i :: 0 <= i < |sets| ==> Matches(self, sets[i], v)
  }

  ghost function Union(self: Encoding, sets: seq<Encoding>): set<Bytes> {
    if sets == [] then Denote(self)
    else Union(self, sets[..|sets| - 1]) + Denote(sets[|sets| - 1])
  }

  /** Some operand holds a `+` spelling of `v`, and none holds `v` itself. */
  ghost predicate HeldUnderPlusOnly(sets: seq<Encoding>, v: Bytes) {
    (exists i :: 0 <= i < |sets| && HoldsPlus(sets[i], v)) &&
    (forall i :: 0 <= i < |sets| ==> v !in Denote(sets[i]))
  }

  /** Every operand holds some spelling of `v`, but not every one holds `v` itself. */
  ghost predicate SharedThanksToPlus(sets: seq<Encoding>, v: Bytes) {
    (forall i :: 0 <= i < |sets| ==> v in Denote(sets[i]) || HoldsPlus(sets[i], v)) &&
    (exists i :: 0 <= i < |sets| && v !in Denote(sets[i]))
  }

  /** SDIFF is the difference of the sets exactly when no member of an integer set is held by
      the operands under a `+` spelling alone. */
  lemma SdiffExact(self: Encoding, sets: seq<Encoding>)
    ensures Diff(self, sets) == (set v | v in Denote(self) && forall i :: 0 <= i < |sets| ==> v !in Denote(sets[i]))
       <==> !(self.Integer? && exists v | v in Denote(self) :: HeldUnderPlusOnly(sets, v))
  {
    var plain := set v | v in Denote(self) && forall i :: 0 <= i < |sets| ==> v !in Denote(sets[i]);
    forall v | v in Denote(self)
      ensures v in plain && v !in Diff(self, sets) <==> self.Integer? && HeldUnderPlusOnly(sets, v)
    {
      if self.Integer? && HeldUnderPlusOnly(sets, v) {
        var i :| 0 <= i < |sets| && HoldsPlus(sets[i], v);
        assert Matches(self, sets[i], v);
      }
    }
    assert Diff(self, sets) <= plain;
  }

  /** SINTER is the intersection exactly when no member of an integer set is shared only
      thanks to a `+` spelling. */
  lemma SinterExact(self: Encoding, sets: seq<Encoding>)
    ensures Inter(self, sets) == (set v | v in Denote(self) && forall i :: 0 <= i < |sets| ==> v in Denote(sets[i]))
       <==> !(self.Integer? && exists v | v in Denote(self) :: SharedThanksToPlus(sets, v))
  {
    var plain := set v | v in Denote(self) && forall i :: 0 <= i < |sets| ==> v in Denote(sets[i]);
    forall v | v in Denote(self)
      ensures v in Inter(self, sets) && v !in plain <==> self.Integer? && SharedThanksToPlus(sets, v)
    {
      assert forall i :: 0 <= i < |sets| && Matches(self, sets[i], v) ==>
        v in Denote(sets[i]) || HoldsPlus(sets[i], v);
    }
    assert plain <= Inter(self, sets);
  }

  lemma {:induction false} UnionMembers(self: Encoding, sets: seq<Encoding>, v: Bytes)
    ensures v in Union(self, sets) <==> v in Denote(self) || exists i :: 0 <= i < |sets| && v in Denote(sets[i])
  {
    if sets != [] {
      var n := |sets| - 1;
      UnionMembers(self, sets[..n], v);
      assert forall i :: 0 <= i < n ==> sets[..n][i] == sets[i];
    }
  }

  /** What it means for an operand to hold the member `n` of an integer set. */
  lemma IntegerMatches(self: Encoding, o: Encoding, n: Usize)
    requires self.Integer?
    ensures Matches(self, o, UsizeToVec(n))
       <==> if o.Integer? then n in o.ints else exists el :: el in o.members && VecToUsize(el) == Some(n)
  {
    var v := UsizeToVec(n);
    UsizeRoundTrip(n);
    if o.Integer? {
      SpelledMember(o.ints, n);
    } else {
      forall el | el in o.members
        ensures VecToUsize(el) == Some(n) <==> Normal(el) == v
      {
        if VecToUsize(el).Some? {
          UsizeRoundTrip(VecToUsize(el).value);
        }
        NormalChangesPlus(el);
      }
      if v in o.members {
        assert VecToUsize(v) == Some(n);
      }
      if el :| el in o.members && VecToUsize(el) == Some(n) {
        NormalChangesPlus(el);
      }
    }
  }

  // ----- Random positions ----------------------------------------------------------

  ghost predicate Descending(positions: seq<nat>, len: nat) {
    (forall i :: 0 <= i < |positions| ==> positions[i] < len) &&
    (forall i, j :: 0 <= i < j < |positions| ==> positions[i] > positions[j])
  }

  /** After `i` removals the i-th position is still inside. */
  lemma {:induction false} DescendingFits(positions: seq<nat>, len: nat, i: nat)
    requires Descending(positions, len) && i < |positions|
    ensures positions[i] + i < len
  {
    if i > 0 {
      DescendingFits(positions, len, i - 1);
    }
  }

  lemma AppendDescending(positions: seq<nat>, x: nat, len: nat)
    requires Descending(positions, len) && x < len
    requires forall i :: 0 <= i < |positions| ==> positions[i] > x
    ensures Descending(positions + [x], len)
  {
  }

  method SortDescending(s: set<nat>, ghost len: nat) returns (r: seq<nat>)
    requires forall x | x in s :: x < len
    ensures Descending(r, len) && Elements(r) == s && |r| == |s|
  {
    r := [];
    var rest := s;
    while rest != {}
      invariant rest <= s && Elements(r) == s - rest && |r| + |rest| == |s|
      invariant Descending(r, len)
      invariant forall x, i | x in rest && 0 <= i < |r| :: x < r[i]
    {
      var x := Largest(rest);
      assert Elements(r + [x]) == Elements(r) + {x};
      AppendDescending(r, x, len);
      r := r + [x];
      rest := rest - {x};
    }
  }

  method Largest(s: set<nat>) returns (m: nat)
    requires s != {}
    ensures m in s && forall x | x in s :: x <= m
  {
    m :| m in s;
    var rest := s - {m};
    while rest != {}
      invariant rest <= s && m in s
      invariant forall x | x in s :: x in rest || x <= m
    {
      var x :| x in rest;
      if x > m { m := x; }
      rest := rest - {x};
    }
  }

  /** `get_random_positions` without duplicates; draws that repeat are skipped over. */
  method GetRandomPositions(len: nat, count: nat) returns (positions: seq<nat>)
    ensures Descending(positions, len)
    ensures |positions| == if len < count then len else count
  {
    var min := if len < count then len else count;
    var r: set<nat> := {};
    while |r| < min
      invariant |r| <= min && forall x | x in r :: x < len
      decreases min - |r|
    {
      UnusedPosition(len, r);
      var x: nat :| x < len && x !in r;
      r := r + {x};
    }
    positions := SortDescending(r, len);
  }

  lemma {:induction false} UnusedPosition(len: nat, r: set<nat>)
    requires |r| < len
    ensures exists x: nat :: x < len && x !in r
  {
    if len - 1 in r {
      UnusedPosition(len - 1, r - {len - 1});
    }
  }

  // ----- The value -----------------------------------------------------------------

  class ValueSet {
    var enc: Encoding

    constructor ()
      ensures Denote(enc) == {} && enc.Integer?
    {
      enc := Integer({});
    }

    constructor CreateWithHashset(h: set<Bytes>)
      ensures enc == EncodeSet(h)
    {
      var order := Iterate(h);
      EnumerationSize(order, h);
      var s, values := ParseWhilePossible(order);
      ParsedPrefix(h, order, values);
      enc := if |h| == |s| then Integer(s) else Data(h);
    }

    method MakeData()
      modifies this
      ensures enc.Data? && Denote(enc) == old(Denote(enc))
    {
      match enc
      case Data(_) => return;
      case Integer(ints) =>
        var order := Iterate(ints);
        var h: set<Bytes> := {};
        for k := 0 to |order|
          invariant h == Spelled(Elements(order[..k]))
        {
          assert order[..k + 1] == order[..k] + [order[k]];
          assert Elements(order[..k + 1]) == Elements(order[..k]) + {order[k]};
          h := h + {UsizeToVec(order[k])};
        }
        assert order[..|order|] == order;
        enc := Data(h);
    }

    method Sadd(el: Bytes, maxIntSize: nat) returns (added: bool)
      modifies this
      ensures Denote(enc) == old(Denote(enc)) + {Added(old(enc), el, maxIntSize)}
      ensures added <==> Added(old(enc), el, maxIntSize) !in old(Denote(enc))
      ensures enc.Integer? <==> old(enc.Integer? && |enc.ints| < maxIntSize) && VecToUsize(el).Some?
      decreases if enc.Integer? then 1 else 0
    {
      match enc
      case Integer(ints) =>
        if |ints| < maxIntSize {
          match VecToUsize(el)
          case Some(v) =>
            SpelledMember(ints, v);
            enc := Integer(ints + {v});
            return v !in ints;
          case None =>
        }
        MakeData();
        added := Sadd(el, maxIntSize);
      case Data(members) =>
        enc := Data(members + {el});
        return el !in members;
    }

    method Srem(el: Bytes) returns (removed: bool)
      modifies this
      ensures Denote(enc) == old(Denote(enc)) - {Sought(old(enc), el)}
      ensures removed <==> Sought(old(enc), el) in old(Denote(enc))
      ensures enc.Integer? <==> old(enc.Integer?)
    {
      match enc
      case Data(members) =>
        enc := Data(members - {el});
        return el in members;
      case Integer(ints) =>
        NormalInSpelled(ints, el);
        match VecToUsize(el)
        case Some(v) =>
          SpelledRemove(ints, v);
          enc := Integer(ints - {v});
          return v in ints;
        case None => return false;
    }

    method Sismember(el: Bytes) returns (r: bool)
      ensures r <==> Sought(enc, el) in Denote(enc)
    {
      match enc
      case Data(members) => return el in members;
      case Integer(ints) =>
        NormalInSpelled(ints, el);
        match VecToUsize(el)
        case Some(v) => return v in ints;
        case None => return false;
    }

    method Spop(count: nat) returns (r: seq<Bytes>)
      modifies this
      ensures Distinct(r) && Elements(r) <= old(Denote(enc))
      ensures |r| == if count < |old(Denote(enc))| then count else |old(Denote(enc))|
      ensures Denote(enc) == old(Denote(enc)) - Elements(r)
      ensures enc.Integer? <==> old(enc.Integer?)
    {
      match enc
      case Data(members) =>
        var popped, rest := PopSome(members, count);
        enc := Data(rest);
        return popped;
      case Integer(ints) =>
        SpelledSize(ints);
        var popped, rest := PopSome(ints, count);
        SpelledPopped(ints, popped, rest);
        enc := Integer(rest);
        return SpellAll(popped);
    }

    method Sdiff(sets: seq<Encoding>) returns (r: set<Bytes>)
      ensures r == Diff(enc, sets)
    {
      match enc
      case Data(original) =>
        var elements := original;
        for i := 0 to |sets|
          invariant elements == Diff(enc, sets[..i])
        {
          elements := RemoveBytes(elements, sets[i]);
          assert sets[..i + 1] == sets[..i] + [sets[i]];
        }
        assert sets[..|sets|] == sets;
        return elements;
      case Integer(original) =>
        var elements := original;
        for i := 0 to |sets|
          invariant elements <= original
          invariant forall n | n in original ::
            n in elements <==> forall j :: 0 <= j < i ==> !Matches(enc, sets[j], UsizeToVec(n))
        {
          ghost var before := elements;
          elements := RemoveInts(elements, sets[i]);
          forall n | n in original
            ensures n in elements <==> n in before && !Matches(enc, sets[i], UsizeToVec(n))
          {
            IntegerMatches(enc, sets[i], n);
          }
        }
        SpelledSelection(original, elements, Diff(enc, sets));
        return Spelled(elements);
    }

    method Sinter(sets: seq<Encoding>) returns (r: set<Bytes>)
      ensures r == Inter(enc, sets)
    {
      match enc
      case Data(original) =>
        var result := original;
        for i := 0 to |sets|
          invariant result == Inter(enc, sets[..i])
        {
          result := result * Denote(sets[i]);
          assert sets[..i + 1] == sets[..i] + [sets[i]];
          if result == {} {
            EmptyInterStays(enc, sets, i + 1);
            return {};
          }
        }
        assert sets[..|sets|] == sets;
        return result;
      case Integer(original) =>
        var result := original;
        for i := 0 to |sets|
          invariant result == InterInts(enc, sets[..i])
        {
          result := IntersectInts(result, sets[i]);
          InterIntsStep(enc, sets, i);
          if result == {} {
            InterIntsSpelled(enc, sets[..i + 1]);
            EmptyInterStays(enc, sets, i + 1);
            return {};
          }
        }
        assert sets[..|sets|] == sets;
        InterIntsSpelled(enc, sets);
        return Spelled(result);
    }

    method Sunion(sets: seq<Encoding>) returns (r: set<Bytes>)
      ensures r == Union(enc, sets)
    {
      r := Denote(enc);
      for i := 0 to |sets|
        invariant r == Union(enc, sets[..i])
      {
        r := r + Denote(sets[i]);
        assert sets[..i + 1][..i] == sets[..i];
      }
      assert sets[..|sets|] == sets;
    }
  }

  /** `filter_map(|x| vec_to_usize(x).ok())`. */
  function ParsedMembers(members: set<Bytes>): (r: set<Usize>)
    ensures forall n: Usize :: n in r <==> exists el :: el in members && VecToUsize(el) == Some(n)
  {
    var r := set x | x in members && VecToUsize(x).Some? :: VecToUsize(x).value;
    assert forall el | el in members && VecToUsize(el).Some? :: VecToUsize(el).value in r;
    r
  }

  function IntersectInts(before: set<Usize>, o: Encoding): (r: set<Usize>)
    ensures r == set n | n in before &&
              if o.Integer? then n in o.ints else exists el :: el in o.members && VecToUsize(el) == Some(n)
  {
    match o
    case Integer(ints) => before * ints
    case Data(members) => before * ParsedMembers(members)
  }

  // ----- Loops over hash iteration order -------------------------------------------

  /** Collects integers up to the first member that is none; `values` is what it parsed. */
  method ParseWhilePossible(order: seq<Bytes>) returns (s: set<Usize>, ghost values: seq<Usize>)
    ensures s == Elements(values) && |values| <= |order|
    ensures forall i :: 0 <= i < |values| ==> VecToUsize(order[i]) == Some(values[i])
    ensures |values| < |order| ==> VecToUsize(order[|values|]).None?
  {
    s, values := {}, [];
    for k := 0 to |order|
      invariant |values| == k && s == Elements(values)
      invariant forall i :: 0 <= i < k ==> VecToUsize(order[i]) == Some(values[i])
    {
      var parsed := VecToUsize(order[k]);
      if parsed.None? { return; }
      assert Elements(values + [parsed.value]) == Elements(values) + {parsed.value};
      s := s + {parsed.value};
      values := values + [parsed.value];
    }
  }

  /** `elements.remove(el)` for every member of an operand, on byte elements. */
  method RemoveBytes(before: set<Bytes>, o: Encoding) returns (elements: set<Bytes>)
    ensures elements == before - Denote(o)
  {
    var order := Iterate(Denote(o));
    elements := before;
    for k := 0 to |order|
      invariant elements == before - Elements(order[..k])
    {
      assert Elements(order[..k + 1]) == Elements(order[..k]) + {order[k]};
      elements := elements - {order[k]};
    }
    assert order[..|order|] == order;
  }

  /** The same on integer elements; operands that are bytes are parsed. */
  method RemoveInts(before: set<Usize>, o: Encoding) returns (elements: set<Usize>)
    ensures elements == set n | n in before &&
              !(if o.Integer? then n in o.ints else exists el :: el in o.members && VecToUsize(el) == Some(n))
  {
    elements := before;
    match o
    case Integer(ints) =>
      var order := Iterate(ints);
      for k := 0 to |order|
        invariant elements == before - Elements(order[..k])
      {
        assert Elements(order[..k + 1]) == Elements(order[..k]) + {order[k]};
        elements := elements - {order[k]};
      }
      assert order[..|order|] == order;
    case Data(members) =>
      var order := Iterate(members);
      for k := 0 to |order|
        invariant elements == set n | n in before && forall i :: 0 <= i < k ==> VecToUsize(order[i]) != Some(n)
      {
        if VecToUsize(order[k]).Some? {
          elements := elements - {VecToUsize(order[k]).value};
        }
      }
      forall n | n in before
        ensures n in elements <==> !exists el :: el in members && VecToUsize(el) == Some(n)
      {
        assert forall i :: 0 <= i < |order| ==> order[i] in members;
        if el :| el in members && VecToUsize(el) == Some(n) {
          assert el in Elements(order);
        }
      }
  }

  /** The loop of `spop`, and its `drain` when everything goes.  The iteration order is open
      and may be another one after each removal. */
  method PopSome<T(==)>(all: set<T>, count: nat) returns (popped: seq<T>, rest: set<T>)
    ensures Distinct(popped) && Elements(popped) <= all && rest == all - Elements(popped)
    ensures |popped| == if count < |all| then count else |all|
  {
    if count >= |all| {
      popped := Iterate(all);
      EnumerationSize(popped, all);
      return popped, {};
    }
    var positions := GetRandomPositions(|all|, count);
    popped, rest := [], all;
    for i := 0 to |positions|
      invariant |popped| == i && Distinct(popped) && Elements(popped) <= all
      invariant rest == all - Elements(popped) && |rest| == |all| - i
    {
      var order := Iterate(rest);
      EnumerationSize(order, rest);
      DescendingFits(positions, |all|, i);
      var el := order[positions[i]];
      assert el in Elements(order);
      assert Elements(popped + [el]) == Elements(popped) + {el};
      popped := popped + [el];
      rest := rest - {el};
    }
  }

  function SpellAll(ns: seq<Usize>): seq<Bytes> {
    seq(|ns|, i requires 0 <= i < |ns| => UsizeToVec(ns[i]))
  }

  // ----- Spelling commutes with set operations -------------------------------------

  lemma SpelledRemove(ints: set<Usize>, n: Usize)
    ensures Spelled(ints - {n}) == Spelled(ints) - {UsizeToVec(n)}
  {
    forall m | m in ints
      ensures UsizeToVec(m) == UsizeToVec(n) <==> m == n
    {
      UsizeRoundTrip(m);
      UsizeRoundTrip(n);
    }
  }

  lemma SpelledPopped(ints: set<Usize>, popped: seq<Usize>, rest: set<Usize>)
    requires Distinct(popped) && Elements(popped) <= ints && rest == ints - Elements(popped)
    ensures Distinct(SpellAll(popped)) && Elements(SpellAll(popped)) <= Spelled(ints)
    ensures Spelled(rest) == Spelled(ints) - Elements(SpellAll(popped))
  {
    var r := SpellAll(popped);
    forall i, j | 0 <= i < j < |r|
      ensures r[i] != r[j]
    {
      UsizeRoundTrip(popped[i]);
      UsizeRoundTrip(popped[j]);
    }
    assert Elements(r) == Spelled(Elements(popped)) by {
      forall n | n in Elements(popped)
        ensures UsizeToVec(n) in r
      {
        var i :| 0 <= i < |popped| && popped[i] == n;
        assert r[i] == UsizeToVec(n);
      }
    }
    forall n | n in ints
      ensures UsizeToVec(n) in Spelled(Elements(popped)) <==> n in popped
    {
      SpelledMember(Elements(popped), n);
    }
  }

  /** Choosing among the integers is choosing among their spellings. */
  lemma SpelledSelection(ints: set<Usize>, chosen: set<Usize>, members: set<Bytes>)
    requires chosen <= ints && members <= Spelled(ints)
    requires forall n | n in ints :: n in chosen <==> UsizeToVec(n) in members
    ensures Spelled(chosen) == members
  {
    forall v | v in members
      ensures v in Spelled(chosen)
    {
      SpelledParses(ints, v);
    }
  }

  ghost function InterInts(self: Encoding, sets: seq<Encoding>): set<Usize>
    requires self.Integer?
  {
    set n | n in self.ints && forall i :: 0 <= i < |sets| ==> Matches(self, sets[i], UsizeToVec(n))
  }

  lemma InterIntsStep(self: Encoding, sets: seq<Encoding>, i: nat)
    requires self.Integer? && i < |sets|
    ensures IntersectInts(InterInts(self, sets[..i]), sets[i]) == InterInts(self, sets[..i + 1])
  {
    assert sets[..i + 1] == sets[..i] + [sets[i]];
    forall n | n in self.ints
      ensures n in InterInts(self, sets[..i + 1])
         <==> n in InterInts(self, sets[..i]) && Matches(self, sets[i], UsizeToVec(n))
    {
    }
    forall n | n in self.ints
      ensures n in InterInts(self, sets[..i + 1]) <==> n in IntersectInts(InterInts(self, sets[..i]), sets[i])
    {
      IntegerMatches(self, sets[i], n);
    }
  }

  lemma InterIntsSpelled(self: Encoding, sets: seq<Encoding>)
    requires self.Integer?
    ensures Spelled(InterInts(self, sets)) == Inter(self, sets)
  {
    forall n | n in self.ints
      ensures n in InterInts(self, sets) <==> UsizeToVec(n) in Inter(self, sets)
    {
    }
    SpelledSelection(self.ints, InterInts(self, sets), Inter(self, sets));
  }

  lemma EmptyInterStays(self: Encoding, sets: seq<Encoding>, n: nat)
    requires n <= |sets| && Inter(self, sets[..n]) == {}
    ensures Inter(self, sets) == {}
  {
    assert forall i :: 0 <= i < n ==> sets[..n][i] == sets[i];
    forall v | v in Inter(self, sets)
      ensures v in Inter(self, sets[..n])
    {
    }
  }

  lemma DistinctSplit<T>(s: seq<T>, last: T)
    ensures Distinct(s + [last]) <==> Distinct(s) && last !in s
  {
    var longer := s + [last];
    if Distinct(longer) {
      assert forall i :: 0 <= i < |s| ==> longer[i] == s[i] && longer[i] != longer[|s|];
    }
  }

  lemma {:induction false} SizeTellsDistinct<T>(s: seq<T>)
    ensures |Elements(s)| <= |s|
    ensures |Elements(s)| == |s| <==> Distinct(s)
  {
    if s != [] {
      var front, last := s[..|s| - 1], s[|s| - 1];
      assert s == front + [last];
      SizeTellsDistinct(front);
      DistinctSplit(front, last);
      assert Elements(s) == Elements(front) + {last};
    }
  }

  /** What comparing the sizes tells after the loop has parsed a prefix of `order`. */
  lemma ParsedPrefix(h: set<Bytes>, order: seq<Bytes>, values: seq<Usize>)
    requires Enumerates(order, h) && |order| == |h| && |values| <= |order|
    requires forall i :: 0 <= i < |values| ==> VecToUsize(order[i]) == Some(values[i])
    requires |values| < |order| ==> VecToUsize(order[|values|]).None?
    ensures EncodeSet(h) == if |h| == |Elements(values)| then Integer(Elements(values)) else Data(h)
  {
    SizeTellsDistinct(values);
    if |values| == |order| {
      ParsedInFull(h, order, values);
    } else {
      assert order[|values|] in Elements(order);
    }
  }

  lemma ParsedInFull(h: set<Bytes>, order: seq<Bytes>, values: seq<Usize>)
    requires Enumerates(order, h) && |values| == |order|
    requires forall i :: 0 <= i < |order| ==> VecToUsize(order[i]) == Some(values[i])
    ensures AllParse(h) && Elements(values) == ParsedMembers(h)
    ensures OneSpellingEach(h) <==> Distinct(values)
  {
    forall v | v in h
      ensures exists i :: 0 <= i < |order| && order[i] == v && VecToUsize(v) == Some(values[i])
    {
      assert v in Elements(order);
      var i :| 0 <= i < |order| && order[i] == v;
    }
    SameSpelling(h, order, values);
    forall i | 0 <= i < |order|
      ensures order[i] in h && values[i] in ParsedMembers(h)
    {
      assert order[i] in Elements(order);
    }
  }

  lemma SameSpelling(h: set<Bytes>, order: seq<Bytes>, values: seq<Usize>)
    requires Enumerates(order, h) && |values| == |order|
    requires forall i :: 0 <= i < |order| ==> VecToUsize(order[i]) == Some(values[i])
    ensures OneSpellingEach(h) <==> Distinct(values)
  {
    assert forall i :: 0 <= i < |order| ==> order[i] in Elements(order);
    if Distinct(values) {
      forall v, w | v in h && w in h && VecToUsize(v) == VecToUsize(w)
        ensures v == w
      {
        assert v in Elements(order) && w in Elements(order);
        var i :| 0 <= i < |order| && order[i] == v;
        var j :| 0 <= j < |order| && order[j] == w;
        assert values[i] == values[j] && i == j;
      }
    }
  }
}
