/**
 * BitVectorPositionTranslator and VariableSet: values get dense positions
 * 0, 1, 2, ... in order of first sight, and a VariableSet stores the
 * positions of its members as a bit set over one translator shared by every
 * set.  The sparse bit vector is modelled as the set of its one bits.
 */
module Translation {
  import opened Opt

  /**
   * The two tables are inverse to each other and the positions in use are
   * exactly 0 .. n-1, one per value.
   */
  ghost predicate Bijection<V>(vToI: map<V, nat>, iToV: map<nat, V>, n: nat) {
    (forall v :: v in vToI ==> vToI[v] in iToV && iToV[vToI[v]] == v) &&
    (forall i :: i in iToV ==> iToV[i] in vToI && vToI[iToV[i]] == i) &&
    (forall i :: i in iToV <==> 0 <= i < n)
  }

  /** The members of a bit set read through a position table. */
  function Decode<V>(bits: set<nat>, iToV: map<nat, V>): (s: set<V>)
    ensures forall i :: i in bits && i in iToV ==> iToV[i] in s
  {
    set i | i in bits && i in iToV :: iToV[i]
  }

  /** Distinct values have distinct positions. */
  lemma PositionsInjective<V>(vToI: map<V, nat>, iToV: map<nat, V>, n: nat, v: V, w: V)
    requires Bijection(vToI, iToV, n) && v in vToI && w in vToI
    ensures vToI[v] == vToI[w] <==> v == w
  {
    if vToI[v] == vToI[w] {
      assert iToV[vToI[v]] == v && iToV[vToI[w]] == w;
    }
  }

  /** One position per value: the table holds exactly n values. */
  lemma {:induction false} BijectionCount<V>(vToI: map<V, nat>, iToV: map<nat, V>, n: nat)
    requires Bijection(vToI, iToV, n)
    ensures |vToI| == n
    decreases n
  {
    if n > 0 {
      var w := iToV[n - 1];
      BijectionDrop(vToI, iToV, n);
      BijectionCount(vToI - {w}, iToV - {n - 1}, n - 1);
      assert vToI.Keys == (vToI - {w}).Keys + {w} && w !in (vToI - {w}).Keys;
    }
  }

  /** Dropping the last position and its value leaves a bijection one shorter. */
  lemma BijectionDrop<V>(vToI: map<V, nat>, iToV: map<nat, V>, n: nat)
    requires Bijection(vToI, iToV, n) && n > 0
    ensures Bijection(vToI - {iToV[n - 1]}, iToV - {n - 1}, n - 1)
  {
    var w := iToV[n - 1];
    var vToI' := vToI - {w};
    var iToV' := iToV - {n - 1};
    forall v | v in vToI' ensures vToI'[v] in iToV' && iToV'[vToI'[v]] == v {
      PositionsInjective(vToI, iToV, n, v, w);
    }
    forall i | i in iToV' ensures iToV'[i] in vToI' && vToI'[iToV'[i]] == i {
      assert vToI[w] == n - 1;
    }
  }

  /**
   * A position table that only grew reads an old bit set the same way, so a
   * set is not disturbed when another set's operation adds values to the
   * shared translator.
   */
  lemma DecodeStable<V>(bits: set<nat>, iToV: map<nat, V>, iToV': map<nat, V>)
    requires bits <= iToV.Keys
    requires forall i :: i in iToV ==> i in iToV' && iToV'[i] == iToV[i]
    ensures Decode(bits, iToV') == Decode(bits, iToV)
  {
    forall x | x in Decode(bits, iToV') ensures x in Decode(bits, iToV) {
      var i :| i in bits && i in iToV' && iToV'[i] == x;
      assert iToV[i] == x;
    }
  }

  /** Through a bijective table, two bit sets share a bit exactly when they share a member. */
  lemma DecodeIntersects<V>(vToI: map<V, nat>, iToV: map<nat, V>, n: nat, b1: set<nat>, b2: set<nat>)
    requires Bijection(vToI, iToV, n) && b1 <= iToV.Keys && b2 <= iToV.Keys
    ensures b1 * b2 != {} <==> Decode(b1, iToV) * Decode(b2, iToV) != {}
  {
    if Decode(b1, iToV) * Decode(b2, iToV) != {} {
      var x :| x in Decode(b1, iToV) * Decode(b2, iToV);
      var i :| i in b1 && i in iToV && iToV[i] == x;
      var j :| j in b2 && j in iToV && iToV[j] == x;
      assert vToI[x] == i && vToI[x] == j;
      assert i in b1 * b2;
    }
    if b1 * b2 != {} {
      var i :| i in b1 * b2;
      assert iToV[i] in Decode(b1, iToV) * Decode(b2, iToV);
    }
  }

  /** A value is decoded from a bit set exactly when its position is one of the bits. */
  lemma DecodeMember<V>(vToI: map<V, nat>, iToV: map<nat, V>, n: nat, bits: set<nat>, v: V)
    requires Bijection(vToI, iToV, n) && bits <= iToV.Keys && v in vToI
    ensures v in Decode(bits, iToV) <==> vToI[v] in bits
  {
    if v in Decode(bits, iToV) {
      var i :| i in bits && i in iToV && iToV[i] == v;
      assert vToI[v] == i;
    }
  }

  /** BitVectorPositionTranslator: value to position, position to value, and the next position. */
  class Translator<V(==)> {
    var vToI: map<V, nat>
    var iToV: map<nat, V>
    var nextI: nat

    ghost predicate Valid()
      reads this
    {
      Bijection(vToI, iToV, nextI)
    }

    constructor()
      ensures Valid() && vToI == map[] && iToV == map[] && nextI == 0
    {
      vToI, iToV, nextI := map[], map[], 0;
    }

    /**
     * addValue(v): a new value gets the next position in both tables and the
     * counter moves on; a known value changes nothing.
     */
    method AddValue(v: V) returns (added: bool)
      requires Valid()
      modifies this
      ensures Valid()
      ensures added <==> v !in old(vToI)
      ensures added ==> vToI == old(vToI)[v := old(nextI)] && iToV == old(iToV)[old(nextI) := v] &&
                        nextI == old(nextI) + 1
      ensures !added ==> vToI == old(vToI) && iToV == old(iToV) && nextI == old(nextI)
    {
      if v !in vToI {
        vToI := vToI[v := nextI];
        iToV := iToV[nextI := v];
        nextI := nextI + 1;
        added := true;
      } else {
        added := false;
      }
    }

    /** getPosition(v): the position of v, which gets the next one if it had none. */
    method GetPosition(v: V) returns (i: nat)
      requires Valid()
      modifies this
      ensures Valid() && v in vToI && i == vToI[v] && i in iToV && iToV[i] == v
      ensures v in old(vToI) ==> i == old(vToI[v]) && vToI == old(vToI) && iToV == old(iToV) && nextI == old(nextI)
      ensures v !in old(vToI) ==> i == old(nextI) && vToI == old(vToI)[v := i] && iToV == old(iToV)[i := v] &&
                                  nextI == old(nextI) + 1
    {
      if v !in vToI {
        var _ := AddValue(v);
      }
      i := vToI[v];
    }

    /** getValue(i): the value at position i, or NULL (None) for a position not handed out. */
    method GetValue(i: nat) returns (r: Option<V>)
      requires Valid()
      ensures i < nextI <==> r.Some?
      ensures r.Some? ==> r.value in vToI && vToI[r.value] == i
    {
      if i in iToV {
        r := Some(iToV[i]);
      } else {
        r := None;
      }
    }
  }

  /** A VariableSet: the positions of its members, read through the shared translator. */
  class VariableSet<V(==)> {
    const trans: Translator<V>
    var bits: set<nat>

    ghost predicate Valid()
      reads this, trans
    {
      trans.Valid() && bits <= trans.iToV.Keys
    }

    /** The members of the set. */
    ghost function Contents(): set<V>
      reads this, trans
    {
      Decode(bits, trans.iToV)
    }

    constructor(t: Translator<V>)
      requires t.Valid()
      ensures Valid() && trans == t && Contents() == {}
    {
      trans := t;
      bits := {};
    }

    /** insert(v): v becomes a member; no other membership changes. */
    method Insert(v: V)
      requires Valid()
      modifies this, trans
      ensures Valid() && Contents() == old(Contents()) + {v}
      ensures forall i :: i in old(trans.iToV) ==> i in trans.iToV && trans.iToV[i] == old(trans.iToV[i])
      ensures trans.vToI.Keys == old(trans.vToI.Keys) + {v} && trans.iToV.Keys <= old(trans.iToV.Keys) + {old(trans.nextI)}
    {
      var _ := trans.AddValue(v);
      var i := trans.GetPosition(v);
      DecodeStable(bits, old(trans.iToV), trans.iToV);
      bits := bits + {i};
      DecodeMember(trans.vToI, trans.iToV, trans.nextI, bits, v);
      Unfold(old(bits), i, trans.iToV);
    }

    /** erase(v): v is no longer a member; no other membership changes. */
    method Erase(v: V)
      requires Valid()
      modifies this, trans
      ensures Valid() && Contents() == old(Contents()) - {v}
      ensures forall i :: i in old(trans.iToV) ==> i in trans.iToV && trans.iToV[i] == old(trans.iToV[i])
      ensures trans.vToI.Keys == old(trans.vToI.Keys) + {v} && trans.iToV.Keys <= old(trans.iToV.Keys) + {old(trans.nextI)}
    {
      var _ := trans.AddValue(v);
      var i := trans.GetPosition(v);
      DecodeStable(bits, old(trans.iToV), trans.iToV);
      ghost var before := bits;
      bits := bits - {i};
      forall x | x in Decode(before, trans.iToV) && x != v ensures x in Contents() {
        var j :| j in before && j in trans.iToV && trans.iToV[j] == x;
        assert j != i;
      }
      DecodeMember(trans.vToI, trans.iToV, trans.nextI, bits, v);
    }

    /** count(v): 1 for a member and 0 otherwise; only v's position may be handed out. */
    method Count(v: V) returns (c: int)
      requires Valid()
      modifies trans
      ensures Valid() && Contents() == old(Contents())
      ensures c == if v in Contents() then 1 else 0
      ensures forall i :: i in old(trans.iToV) ==> i in trans.iToV && trans.iToV[i] == old(trans.iToV[i])
      ensures trans.vToI.Keys == old(trans.vToI.Keys) + {v} && trans.iToV.Keys <= old(trans.iToV.Keys) + {old(trans.nextI)}
    {
      var _ := trans.AddValue(v);
      var i := trans.GetPosition(v);
      DecodeStable(bits, old(trans.iToV), trans.iToV);
      DecodeMember(trans.vToI, trans.iToV, trans.nextI, bits, v);
      if i in bits {
        c := 1;
      } else {
        c := 0;
      }
    }

    /** empty(): the set has no members. */
    method Empty() returns (b: bool)
      requires Valid()
      ensures b <==> Contents() == {}
    {
      b := bits == {};
      if !b {
        var i :| i in bits;
        assert trans.iToV[i] in Contents();
      }
    }

    /** intersects(Other): the two sets over the same translator share a member. */
    method Intersects(other: VariableSet<V>) returns (b: bool)
      requires Valid() && other.Valid() && other.trans == trans
      ensures b <==> Contents() * other.Contents() != {}
    {
      DecodeIntersects(trans.vToI, trans.iToV, trans.nextI, bits, other.bits);
      b := bits * other.bits != {};
    }
  }

  /** Adding a bit that some table maps adds exactly its value. */
  lemma Unfold<V>(bits: set<nat>, i: nat, iToV: map<nat, V>)
    requires i in iToV
    ensures Decode(bits + {i}, iToV) == Decode(bits, iToV) + {iToV[i]}
  {
  }
}
