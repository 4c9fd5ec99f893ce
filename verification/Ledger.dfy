/**
 Who holds which memory: everything that the library has allocated and not freed is held by
 one task.  Starting a request and every callback keep it so; hence nothing is held when no
 task is left.
 */
module Ledger {
  // Each holder's memory is live and its own, and all live memory has a holder.
  ghost predicate Balanced<K>(live: set<object>, held: map<K, set<object>>) {
    && (forall k :: k in held ==> held[k] <= live)
    && (forall j, k :: j in held && k in held && j != k ==> held[j] !! held[k])
    && (forall o :: o in live ==> exists k :: k in held && o in held[k])
  }

  lemma Released<K>(live: set<object>, held: map<K, set<object>>, k: K)
    requires Balanced(live, held) && k in held
    ensures Balanced(live - held[k], held - {k})
  {
    var held' := held - {k};
    forall o | o in live - held[k] ensures exists j :: j in held' && o in held'[j] {
      var j :| j in held && o in held[j];
      assert held'[j] == held[j];
    }
  }

  lemma Acquired<K>(live: set<object>, held: map<K, set<object>>, k: K, objs: set<object>)
    requires Balanced(live, held) && k !in held && objs !! live
    ensures Balanced(live + objs, held[k := objs])
  {
    var held' := held[k := objs];
    forall o | o in live + objs ensures exists j :: j in held' && o in held'[j] {
      if o in objs {
        assert held'[k] == objs;
      } else {
        var j :| j in held && o in held[j];
        assert held'[j] == held[j];
      }
    }
  }

  // No holder, no memory.
  lemma NothingLeft<K>(live: set<object>, held: map<K, set<object>>)
    requires Balanced(live, held)
    ensures held == map[] ==> live == {}
  {
    assert forall o :: o in live ==> exists k :: k in held && o in held[k];
  }
}
