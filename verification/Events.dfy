/** Event queue of the replay. */
module Events {
  import opened Delivery

  datatype Payload = Seen(event: Observation) | Timer(generation: int)

  /** `serial` numbers the pushes, so two entries never tie. */
  datatype Entry = Entry(at: int, priority: int, serial: int, key: int, payload: Payload)

  predicate NoLater(a: Entry, b: Entry) {
    a.at < b.at || (a.at == b.at && (a.priority < b.priority || (a.priority == b.priority && a.serial <= b.serial)))
  }

  ghost predicate IsEarliest(e: Entry, entries: set<Entry>) {
    e in entries && forall x :: x in entries ==> NoLater(e, x)
  }

  lemma EarliestExists(entries: set<Entry>) returns (e: Entry)
    requires entries != {}
    ensures IsEarliest(e, entries)
  {
    e :| e in entries;
    if entries != {e} {
      var rest := entries - {e};
      var f := EarliestExists(rest);
      var g := if NoLater(e, f) then e else f;
      forall x | x in entries
        ensures NoLater(g, x)
      {
        assert x == e || NoLater(f, x);
      }
      e := g;
    }
  }

  /** What `heappop` promises: it takes an earliest entry out of the list. */
  method HeapPop(heap: set<Entry>) returns (e: Entry, rest: set<Entry>)
    requires heap != {}
    ensures IsEarliest(e, heap) && rest == heap - {e}
  {
    ghost var earliest := EarliestExists(heap);
    e :| e in heap && forall x :: x in heap ==> NoLater(e, x);
    rest := heap - {e};
  }
}
