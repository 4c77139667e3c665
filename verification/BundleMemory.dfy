/** The memory of the bundles given to local delivery: which are linked into the
    reassembly list, which were freed, and whether a freed one was used
    (components/ud3tn/bundle_processor.c, components/ud3tn/bundle.c). */
module BundleMemory {
  import opened Octets

  /** Bundles are named by references. `lists` has the references of the bundles
      in each slot of the reassembly list; `misused` says that a bundle was read
      or freed after it had been freed. */
  datatype Memory = Memory(lists: seq<seq<nat>>, freed: set<nat>, misused: bool)

  /** A bundle is read. */
  function Used(m: Memory, r: nat): Memory {
    m.(misused := m.misused || r in m.freed)
  }

  /** `bundle_discard`, and what is read of the bundle right before. */
  function Freed(m: Memory, r: nat): Memory {
    m.(misused := m.misused || r in m.freed, freed := m.freed + {r})
  }

  function UsedAll(m: Memory, rs: seq<nat>): (n: Memory)
    ensures n.lists == m.lists && n.freed == m.freed
  {
    if rs == [] then m else Used(UsedAll(m, rs[..|rs| - 1]), rs[|rs| - 1])
  }

  /** A bundle is compared with each of some others. */
  function UsedWith(m: Memory, rs: seq<nat>, r: nat): (n: Memory)
    ensures n.lists == m.lists && n.freed == m.freed
  {
    if rs == [] then m else Used(Used(UsedWith(m, rs[..|rs| - 1], r), rs[|rs| - 1]), r)
  }

  lemma UsedWithNone(m: Memory, r: nat)
    ensures UsedWith(m, [], r) == m
  {
  }

  lemma UsedWithNext(m: Memory, rs: seq<nat>, k: nat, r: nat)
    requires k < |rs|
    ensures UsedWith(m, rs[..k + 1], r) == Used(Used(UsedWith(m, rs[..k], r), rs[k]), r)
  {
    assert rs[..k + 1][..k] == rs[..k];
  }

  function FreedAll(m: Memory, rs: seq<nat>): (n: Memory)
    ensures n.lists == m.lists
  {
    if rs == [] then m else Freed(FreedAll(m, rs[..|rs| - 1]), rs[|rs| - 1])
  }

  // ---- What misuse is

  lemma {:induction false} UsedAllMisuses(m: Memory, rs: seq<nat>)
    ensures UsedAll(m, rs).misused <==> m.misused || exists r :: r in rs && r in m.freed
  {
    if rs != [] {
      UsedAllMisuses(m, rs[..|rs| - 1]);
      assert rs == rs[..|rs| - 1] + [rs[|rs| - 1]];
    }
  }

  lemma {:induction false} UsedWithMisuses(m: Memory, rs: seq<nat>, r: nat)
    ensures UsedWith(m, rs, r).misused
       <==> m.misused || (rs != [] && r in m.freed) || exists o :: o in rs && o in m.freed
  {
    if rs != [] {
      UsedWithMisuses(m, rs[..|rs| - 1], r);
      assert rs == rs[..|rs| - 1] + [rs[|rs| - 1]];
    }
  }

  /** Freeing distinct bundles none of which was freed before. */
  lemma {:induction false} FreedAllOnce(m: Memory, rs: seq<nat>)
    requires forall r :: r in rs ==> multiset(rs)[r] == 1 && r !in m.freed
    ensures FreedAll(m, rs).misused == m.misused
    ensures forall r :: r in FreedAll(m, rs).freed <==> r in m.freed || r in rs
  {
    if rs != [] {
      var init, last := rs[..|rs| - 1], rs[|rs| - 1];
      assert rs == init + [last];
      assert multiset(rs) == multiset(init) + multiset{last};
      forall r | r in init ensures multiset(init)[r] == 1 && r !in m.freed {
        assert r in rs;
      }
      FreedAllOnce(m, init);
      assert last in rs && last !in init by {
        assert multiset(rs)[last] == 1;
      }
    }
  }

  lemma {:induction false} FreedAllMisused(m: Memory, rs: seq<nat>)
    requires m.misused
    ensures FreedAll(m, rs).misused
  {
    if rs != [] {
      FreedAllMisused(m, rs[..|rs| - 1]);
    }
  }
}
