/** The topic repository: a store keyed by the topic's `Long` id, with the
    CRUD operations the controller uses and the three derived queries. */
module TopicRepository {
  import opened Common
  import opened Entities

  /** The topic table: id to topic. */
  type Store = map<int, Topic>

  /** A stored entry, as returned in a topic list: the id with its topic. */
  type Entry = (int, Topic)

  /** `findById`. */
  function FindById(store: Store, id: int): (r: Option<Topic>)
    ensures r.Some? <==> id in store
    ensures r.Some? ==> r.value == store[id]
  {
    if id in store then Some(store[id]) else None
  }

  /** `save`: inserts a new id or overwrites the topic already stored under it. */
  function Save(store: Store, id: int, t: Topic): (r: Store)
    ensures r.Keys == store.Keys + {id}
    ensures r[id] == t
    ensures forall k :: k in store && k != id ==> r[k] == store[k]
  {
    store[id := t]
  }

  /** `deleteById`. */
  function DeleteById(store: Store, id: int): (r: Store)
    ensures r.Keys == store.Keys - {id}
    ensures forall k :: k in r ==> r[k] == store[k]
  {
    store - {id}
  }

  /** The topic stored under `id` carries this title and message. */
  predicate HasTitleAndMessage(store: Store, id: int, title: string, message: string)
  {
    id in store && store[id].title == title && store[id].message == message
  }

  /** The ids of the stored topics carrying this title and message. */
  ghost function MatchingIds(store: Store, title: string, message: string): set<int>
  {
    set id | id in store && store[id].title == title && store[id].message == message
  }

  /** `existsByTitleAndMessage`: the set of matching rows is not empty. */
  predicate ExistsByTitleAndMessage(store: Store, title: string, message: string)
    ensures ExistsByTitleAndMessage(store, title, message) <==> MatchingIds(store, title, message) != {}
  {
    var b := exists id :: id in store && HasTitleAndMessage(store, id, title, message);
    assert b <==> MatchingIds(store, title, message) != {} by {
      if b {
        var id :| id in store && HasTitleAndMessage(store, id, title, message);
        assert id in MatchingIds(store, title, message);
      }
      if MatchingIds(store, title, message) != {} {
        ghost var id := MemberOf(MatchingIds(store, title, message));
        assert HasTitleAndMessage(store, id, title, message);
      }
    }
    b
  }

  /** `existsByTitleAndMessageAndIdNot`: the same query over the table without
      the row of `id`. */
  predicate ExistsByTitleAndMessageAndIdNot(store: Store, title: string, message: string, id: int)
    ensures ExistsByTitleAndMessageAndIdNot(store, title, message, id)
            <==> ExistsByTitleAndMessage(store - {id}, title, message)
    ensures ExistsByTitleAndMessageAndIdNot(store, title, message, id) ==> ExistsByTitleAndMessage(store, title, message)
    ensures id !in store ==>
      (ExistsByTitleAndMessageAndIdNot(store, title, message, id) <==> ExistsByTitleAndMessage(store, title, message))
  {
    var rest := store - {id};
    var b := exists other :: other in store && other != id && HasTitleAndMessage(store, other, title, message);
    assert b <==> ExistsByTitleAndMessage(rest, title, message) by {
      if b {
        var other :| other in store && other != id && HasTitleAndMessage(store, other, title, message);
        assert HasTitleAndMessage(rest, other, title, message);
      }
      if ExistsByTitleAndMessage(rest, title, message) {
        var other :| other in rest && HasTitleAndMessage(rest, other, title, message);
        assert HasTitleAndMessage(store, other, title, message);
      }
    }
    assert id !in store ==> rest == store;
    b
  }

  /** The two derived queries differ only by the excluded topic: a match exists
      iff a match with another id exists or the excluded topic itself matches. */
  lemma ExistsSplitsAtId(store: Store, title: string, message: string, id: int)
    ensures ExistsByTitleAndMessage(store, title, message)
        <==> ExistsByTitleAndMessageAndIdNot(store, title, message, id)
             || HasTitleAndMessage(store, id, title, message)
  {
    if ExistsByTitleAndMessage(store, title, message) {
      var w :| w in store && HasTitleAndMessage(store, w, title, message);
      if w != id {
        assert ExistsByTitleAndMessageAndIdNot(store, title, message, id);
      }
    }
    if HasTitleAndMessage(store, id, title, message) {
      assert id in store;
    }
  }

  /** When the only stored match is topic `id` itself, the id-excluding query is false. */
  lemma OnlySelfMatchIsNoConflict(store: Store, title: string, message: string, id: int)
    requires HasTitleAndMessage(store, id, title, message)
    requires forall k :: k in store && HasTitleAndMessage(store, k, title, message) ==> k == id
    ensures ExistsByTitleAndMessage(store, title, message)
    ensures !ExistsByTitleAndMessageAndIdNot(store, title, message, id)
  {
    assert id in store;
  }

  /** The condition of the `findByCourseNameAndYear` query. */
  predicate MatchesCourseAndYear(t: Topic, courseName: string, year: int)
  {
    t.course.name == courseName && t.creationDate.year == year
  }

  /** The ids of the stored topics the `findByCourseNameAndYear` query selects. */
  ghost function Selected(store: Store, courseName: string, year: int): set<int>
  {
    set id | id in store && MatchesCourseAndYear(store[id], courseName, year)
  }

  /** The ids listed in a sequence of entries. */
  ghost function Ids(es: seq<Entry>): set<int>
  {
    set j | 0 <= j < |es| :: es[j].0
  }

  lemma IdsAppend(es: seq<Entry>, e: Entry)
    ensures Ids(es + [e]) == Ids(es) + {e.0}
  {
    var es' := es + [e];
    assert es'[|es|] == e;
    forall x | x in Ids(es) ensures x in Ids(es') {
      var j :| 0 <= j < |es| && es[j].0 == x;
      assert es'[j] == es[j];
    }
  }

  /** `findByCourseNameAndYear`: scans the table and returns, in no particular
      order, every stored topic whose course is named `courseName` and whose
      creation date falls in `year`, each exactly once and as stored. */
  method FindByCourseNameAndYear(store: Store, courseName: string, year: int) returns (found: seq<Entry>)
    ensures forall j :: 0 <= j < |found| ==> found[j].0 in store && store[found[j].0] == found[j].1
    ensures forall j :: 0 <= j < |found| ==> MatchesCourseAndYear(found[j].1, courseName, year)
    ensures Ids(found) == Selected(store, courseName, year)
    ensures forall i, j :: 0 <= i < j < |found| ==> found[i].0 != found[j].0
  {
    found := [];
    var pending := store.Keys;
    while pending != {}
      invariant pending <= store.Keys
      invariant forall j :: 0 <= j < |found| ==> found[j].0 in store && store[found[j].0] == found[j].1
      invariant forall j :: 0 <= j < |found| ==> MatchesCourseAndYear(found[j].1, courseName, year)
      invariant Ids(found) == Selected(store, courseName, year) - pending
      invariant forall i, j :: 0 <= i < j < |found| ==> found[i].0 != found[j].0
      decreases pending
    {
      ghost var some := MemberOf(pending);
      var id :| id in pending;
      if MatchesCourseAndYear(store[id], courseName, year) {
        IdsAppend(found, (id, store[id]));
        found := found + [(id, store[id])];
      }
      pending := pending - {id};
    }
  }
}
