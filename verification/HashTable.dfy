/** The chained hash table of components/ud3tn/simplehtab.c, for any hash
    function: it is a finite map. */
module HashTable {
  import opened Octets

  datatype Item<V> = Item(key: string, value: V)

  /** The position of a key in a chain, or its end. */
  function Position<V>(chain: seq<Item<V>>, key: string): (r: nat)
    ensures r <= |chain|
    ensures forall i :: 0 <= i < r ==> chain[i].key != key
    ensures r < |chain| ==> chain[r].key == key
  {
    if chain == [] then 0
    else
      var n := |chain| - 1;
      var p := Position(chain[..n], key);
      if p < n then p else if chain[n].key == key then n else n + 1
  }

  /** Every key is in the chain its hash selects, and there once. */
  predicate WellPlaced<V>(slots: seq<seq<Item<V>>>, hash: string -> nat)
    requires |slots| > 0
  {
    && (forall s, i :: 0 <= s < |slots| && 0 <= i < |slots[s]| ==> hash(slots[s][i].key) % |slots| == s)
    && (forall s :: 0 <= s < |slots| ==> ChainDistinct(slots[s]))
  }

  function Lookup<V>(slots: seq<seq<Item<V>>>, hash: string -> nat, key: string): Option<V>
    requires |slots| > 0
  {
    ChainLookup(slots[hash(key) % |slots|], key)
  }

  /** The table with one chain replaced by a well-placed one. */
  lemma ChainReplaced<V>(slots: seq<seq<Item<V>>>, hash: string -> nat, s: nat, chain: seq<Item<V>>)
    requires |slots| > 0 && s < |slots| && WellPlaced(slots, hash)
    requires forall i :: 0 <= i < |chain| ==> hash(chain[i].key) % |slots| == s
    requires ChainDistinct(chain)
    ensures WellPlaced(slots[s := chain], hash)
  {
  }

  lemma PositionUnique<V>(chain: seq<Item<V>>, key: string, p: nat)
    requires p < |chain| && chain[p].key == key
    requires ChainDistinct(chain)
    ensures Position(chain, key) == p
  {
  }

  function ChainLookup<V>(chain: seq<Item<V>>, key: string): Option<V> {
    var p := Position(chain, key);
    if p < |chain| then Some(chain[p].value) else None
  }

  predicate ChainDistinct<V>(chain: seq<Item<V>>) {
    forall i, j :: 0 <= i < j < |chain| ==> chain[i].key != chain[j].key
  }

  lemma ChainAppended<V>(chain: seq<Item<V>>, key: string, value: V, k: string)
    requires ChainDistinct(chain) && Position(chain, key) == |chain|
    ensures ChainDistinct(chain + [Item(key, value)])
    ensures ChainLookup(chain + [Item(key, value)], k) == if k == key then Some(value) else ChainLookup(chain, k)
  {
    hide Position;
    var longer := chain + [Item(key, value)];
    if k == key {
      PositionUnique(longer, k, |chain|);
    } else if Position(chain, k) < |chain| {
      PositionUnique(longer, k, Position(chain, k));
    } else {
      assert forall i :: 0 <= i < |longer| ==> longer[i].key != k;
    }
  }

  lemma ChainRemoved<V>(chain: seq<Item<V>>, p: nat, k: string)
    requires ChainDistinct(chain) && p < |chain|
    ensures ChainDistinct(chain[..p] + chain[p + 1..])
    ensures ChainLookup(chain[..p] + chain[p + 1..], k) == if k == chain[p].key then None else ChainLookup(chain, k)
  {
    hide Position;
    var shorter := chain[..p] + chain[p + 1..];
    assert forall i :: 0 <= i < |shorter| ==> shorter[i] == chain[if i < p then i else i + 1];
    var q := Position(chain, k);
    if k == chain[p].key || q == |chain| {
      assert forall i :: 0 <= i < |shorter| ==> shorter[i].key != k;
    } else {
      PositionUnique(shorter, k, if q < p then q else q - 1);
    }
  }

  lemma ChainUpdated<V>(chain: seq<Item<V>>, p: nat, value: V, k: string)
    requires ChainDistinct(chain) && p < |chain|
    ensures ChainDistinct(chain[p := Item(chain[p].key, value)])
    ensures ChainLookup(chain[p := Item(chain[p].key, value)], k)
            == if k == chain[p].key then Some(value) else ChainLookup(chain, k)
  {
    hide Position;
    var updated := chain[p := Item(chain[p].key, value)];
    assert forall i :: 0 <= i < |chain| ==> updated[i].key == chain[i].key;
    var q := Position(chain, k);
    if q < |chain| {
      PositionUnique(updated, k, q);
      if k == chain[p].key {
        PositionUnique(chain, k, p);
      }
    } else {
      assert forall i :: 0 <= i < |chain| ==> updated[i].key != k;
    }
  }

  class Htab<V(==)> {
    const hash: string -> nat
    var slots: seq<seq<Item<V>>>
    /** The map the table stands for. */
    ghost var contents: map<string, V>

    ghost predicate Valid()
      reads this
    {
      && |slots| > 0
      && WellPlaced(slots, hash)
      && forall k :: Lookup(slots, hash, k) == if k in contents then Some(contents[k]) else None
    }

    /** `htab_init` */
    constructor (slotCount: nat, hash: string -> nat)
      requires slotCount > 0
      ensures Valid() && contents == map[] && this.hash == hash
    {
      this.hash := hash;
      slots := seq(slotCount, i => []);
      contents := map[];
    }

    /** `get_elist_ptr_by_hash`: the position of the key in its chain. */
    method Search(chain: seq<Item<V>>, key: string) returns (p: nat)
      ensures p == Position(chain, key)
    {
      p := 0;
      while p < |chain|
        invariant p <= |chain| && forall i :: 0 <= i < p ==> chain[i].key != key
      {
        if chain[p].key == key {
          return;
        }
        p := p + 1;
      }
    }

    /** `htab_get` */
    method Get(key: string) returns (r: Option<V>)
      requires Valid()
      ensures r == if key in contents then Some(contents[key]) else None
    {
      var chain := slots[hash(key) % |slots|];
      var p := Search(chain, key);
      r := if p < |chain| then Some(chain[p].value) else None;
      assert r == Lookup(slots, hash, key);
    }

    /** `htab_add` refuses a key that is there. */
    method Add(key: string, value: V) returns (added: bool)
      requires Valid()
      modifies this
      ensures Valid()
      ensures added <==> key !in old(contents)
      ensures contents == if added then old(contents)[key := value] else old(contents)
    {
      hide Position;
      var s := hash(key) % |slots|;
      var chain := slots[s];
      var p := Search(chain, key);
      assert Lookup(slots, hash, key) == ChainLookup(chain, key);
      if p < |chain| {
        return false;
      }
      var longer := chain + [Item(key, value)];
      forall k ensures ChainDistinct(longer)
                       && ChainLookup(longer, k) == if k == key then Some(value) else ChainLookup(chain, k) {
        ChainAppended(chain, key, value, k);
      }
      ReplaceChain(s, longer, contents[key := value]);
      added := true;
    }

    /** `htab_remove` */
    method Remove(key: string)
      requires Valid()
      modifies this
      ensures Valid() && contents == old(contents) - {key}
    {
      hide Position;
      var s := hash(key) % |slots|;
      var chain := slots[s];
      var p := Search(chain, key);
      assert Lookup(slots, hash, key) == ChainLookup(chain, key);
      if p == |chain| {
        assert contents == contents - {key};
        return;
      }
      var shorter := chain[..p] + chain[p + 1..];
      forall k ensures ChainDistinct(shorter)
                       && ChainLookup(shorter, k) == if k == key then None else ChainLookup(chain, k) {
        ChainRemoved(chain, p, k);
      }
      ReplaceChain(s, shorter, contents - {key});
    }

    /** A write through the pointer that `htab_get` returned. */
    method Write(key: string, value: V)
      requires Valid() && key in contents
      modifies this
      ensures Valid() && contents == old(contents)[key := value]
    {
      hide Position;
      var s := hash(key) % |slots|;
      var chain := slots[s];
      var p := Search(chain, key);
      assert Lookup(slots, hash, key) == ChainLookup(chain, key);
      var updated := chain[p := Item(key, value)];
      forall k ensures ChainDistinct(updated)
                       && ChainLookup(updated, k) == if k == key then Some(value) else ChainLookup(chain, k) {
        ChainUpdated(chain, p, value, k);
      }
      ReplaceChain(s, updated, contents[key := value]);
    }

    method ReplaceChain(s: nat, chain: seq<Item<V>>, ghost now: map<string, V>)
      requires Valid() && s < |slots| && ChainDistinct(chain)
      requires forall i :: 0 <= i < |chain| ==> hash(chain[i].key) % |slots| == s
      requires forall k :: hash(k) % |slots| == s ==> ChainLookup(chain, k) == if k in now then Some(now[k]) else None
      requires forall k :: hash(k) % |slots| != s ==>
                 (k in now <==> k in contents) && (k in now ==> now[k] == contents[k])
      modifies this
      ensures Valid() && contents == now
    {
      hide ChainLookup;
      ChainReplaced(slots, hash, s, chain);
      forall k ensures Lookup(slots[s := chain], hash, k) == if k in now then Some(now[k]) else None {
        assert Lookup(slots, hash, k) == if k in contents then Some(contents[k]) else None;
      }
      slots := slots[s := chain];
      contents := now;
    }
  }
}
