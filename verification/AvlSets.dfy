/** The word-keyed use of the AVL tree: the sets of datastructures.c and the collector's gc_set and refuse. */
module AvlSets {
  import opened AvlTrees
  import opened AvlSearch
  import opened AvlMemory
  import opened AvlStore

  /** In word order no word is stored twice. */
  lemma {:induction false} DatasCount(s: seq<Entry>)
    requires Sorted(false, s)
    ensures |Datas(s)| == |s|
    decreases |s|
  {
    if s == [] {
      assert Datas(s) == {};
    } else {
      var t, e := s[..|s| - 1], s[|s| - 1];
      DatasCount(t);
      assert s == t + [e] && t + [e] + [] == s && t + [] == t;
      OnceIn(t, e, []);
      DatasConcat(t, [e]);
      DatasParts([], [e], []);
      assert Datas(s) == Datas(t) + {e.d};
    }
  }

  /** The order and the balance of a set's tree, and its height. */
  ghost predicate WellOrdered(tree: Tree, words: set<nat>) {
    && Sorted(false, Entries(tree)) && Balanced(tree) && Datas(Entries(tree)) == words
    && |Entries(tree)| == |words| && Fib(Height(tree) + 2) <= |words| + 1
  }

  lemma Ordered(tree: Tree)
    requires Balanced(tree) && Sorted(false, Entries(tree))
    ensures WellOrdered(tree, Datas(Entries(tree)))
  {
    DatasCount(Entries(tree));
    hide Fib, Height, Entries, Sorted, Datas, Balanced;
    Logarithmic(tree);
  }

  /**
   A set of words, used through avl_insert, avl_find and avl_delete only. Whatever sequence of calls made it, its
   tree is in search order, balanced, and of a height logarithmic in the number of words.
   */
  class WordSet {
    const store: AvlTree
    ghost var tree: Tree
    ghost var words: set<nat>

    ghost predicate Valid()
      reads this, store
    {
      Stored(store.nodes, store.root, tree, Addrs(tree), Entries(tree)) && WellOrdered(tree, words)
    }

    constructor ()
      ensures Valid() && words == {} && tree == Leaf && fresh(store)
    {
      store := new AvlTree();
      tree, words := Leaf, {};
      new;
      assert Fib(2) == 1;
    }

    /** avl_insert, nd being what alloc returned for the node: failed without memory, or with the word there already. */
    method Add(nd: nat, data: nat) returns (failed: bool)
      requires Valid() && nd !in Addrs(tree)
      modifies this, store
      ensures Valid()
      ensures failed <==> nd == 0 || data in old(words)
      ensures words == if nd == 0 then old(words) else old(words) + {data}
      ensures Addrs(tree) == if failed then old(Addrs(tree)) else old(Addrs(tree)) + {nd}
    {
      hide *;
      Reads();
      ghost var t := tree;
      failed, tree := store.Insert(nd, data, false, tree);
      HasIsData(Entries(t), data);
      KeyIsData(nd, data);
      StoredBalanced(store.nodes, store.root, tree);
      if !failed {
        InsertedDatas(Entries(t), Entries(tree), Entry(nd, data));
        words := words + {data};
      }
      Ordered(tree);
      Becomes();
    }

    /** avl_find, as in_set and the collector's loops use it. */
    method Has(data: nat) returns (nd: nat)
      requires Valid()
      ensures nd != 0 <==> data in words
      ensures nd != 0 ==> nd in store.nodes && store.nodes[nd].data == data
    {
      nd := store.Find(data, tree);
    }

    /** avl_delete; removed is the memory that it then frees. */
    method Remove(data: nat) returns (failed: bool, removed: nat)
      requires Valid()
      modifies this, store
      ensures Valid() && words == old(words) - {data}
      ensures failed <==> data !in old(words)
      ensures !failed ==> removed in old(Addrs(tree)) && Addrs(tree) == old(Addrs(tree)) - {removed}
      ensures failed ==> tree == old(tree)
    {
      hide *;
      Reads();
      failed, removed, tree := store.DeleteWord(data, tree);
      words := words - {data};
      StoredBalanced(store.nodes, store.root, tree);
      Ordered(tree);
      Becomes();
    }

    lemma Reads()
      requires Valid()
      ensures Stored(store.nodes, store.root, tree, Addrs(tree), Entries(tree)) && Sorted(false, Entries(tree))
      ensures Datas(Entries(tree)) == words
    {
    }

    lemma WhenValid()
      requires Valid()
      ensures WellOrdered(tree, words)
    {
    }

    lemma EmptyAtFirst()
      requires tree == Leaf
      ensures Addrs(tree) == {}
    {
    }

    lemma Becomes()
      requires Stored(store.nodes, store.root, tree, Addrs(tree), Entries(tree)) && WellOrdered(tree, words)
      ensures Valid()
    {
    }
  }

  lemma KeyIsData(a: nat, d: nat)
    ensures Key(false, a, d) == d
  {
  }

  // ------------------------------------------------------------- whole runs

  datatype Change = Insertion(word: nat) | Deletion(word: nat)

  /** The words left by a sequence of changes, of which those insertions count that got memory for their node. */
  function After(changes: seq<Change>, got: seq<bool>): set<nat>
    requires |got| == |changes|
  {
    if changes == [] then {} else
      var k := |changes| - 1;
      var s := After(changes[..k], got[..k]);
      match changes[k]
      case Insertion(w) => if got[k] then s + {w} else s
      case Deletion(w) => s - {w}
  }

  /**
   Every tree reached by insertions and deletions, in whatever order and whatever unused memory alloc hands out (0 is
   none), is in search order, balanced and of logarithmic height, and holds exactly the words that it should.
   */
  method Reach(changes: seq<Change>, alloc: (nat, set<nat>) -> nat) returns (s: WordSet, got: seq<bool>)
    requires forall k, used :: alloc(k, used) !in used
    ensures |got| == |changes| && s.Valid() && WellOrdered(s.tree, After(changes, got))
  {
    hide *;
    s := new WordSet();
    s.EmptyAtFirst();
    NothingYet(changes);
    got := [];
    var used: set<nat> := {};
    for k := 0 to |changes|
      invariant |got| == k && fresh(s) && fresh(s.store) && s.Valid()
      invariant used == Addrs(s.tree) && s.words == After(changes[..k], got)
    {
      ghost var before := got;
      var failed;
      match changes[k] {
        case Insertion(w) =>
          var nd := alloc(k, used);
          failed := s.Add(nd, w);
          used := if failed then used else used + {nd};
          got := got + [nd != 0];
        case Deletion(w) =>
          var removed;
          failed, removed := s.Remove(w);
          used := if failed then used else used - {removed};
          got := got + [true];
      }
      OneMore(changes, k, before, got);
    }
    assert changes[..|changes|] == changes;
    s.WhenValid();
  }

  lemma NothingYet(changes: seq<Change>)
    ensures After(changes[..0], []) == {}
  {
  }

  lemma OneMore(changes: seq<Change>, k: nat, before: seq<bool>, got: seq<bool>)
    requires k < |changes| && |before| == k && |got| == k + 1 && got == before + [got[k]]
    ensures After(changes[..k + 1], got) ==
            match changes[k]
            case Insertion(w) => if got[k] then After(changes[..k], before) + {w} else After(changes[..k], before)
            case Deletion(w) => After(changes[..k], before) - {w}
  {
    var all := changes[..k + 1];
    assert all[..k] == changes[..k] && got[..k] == before;
  }
}
