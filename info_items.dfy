/** Info-item documents and the operations a topic performs on its ordered
    sequence of them: lookup by id, upsert, removal and tailoring. */
module InfoItems {
  import opened Wrappers
  import opened Ids

  /** A creation time. The model never inspects it. */
  type Timestamp = int

  /** An item without an open/closed flag is a plain discussion note; an item
      with one is an action item. */
  datatype Kind = Discussion | Action(isOpen: bool)

  /** One info-item document nested in a topic. An absent subject is the
      empty string. */
  datatype InfoItemDoc = InfoItemDoc(id: Option<Id>, subject: string, createdAt: Option<Timestamp>, kind: Kind)

  /** An action item whose flag is set: the only kind that survives tailoring. */
  predicate IsOpenAction(item: InfoItemDoc) {
    item.kind == Action(true)
  }

  // ---------------------------------------------------------------------------
  // Identity invariants
  // ---------------------------------------------------------------------------

  /** No two items that carry an id carry the same one. */
  ghost predicate UniqueIds(items: seq<InfoItemDoc>) {
    forall i, j :: 0 <= i < j < |items| && items[i].id.Some? ==> items[i].id != items[j].id
  }

  /** Every generated id in `items` was issued before the generator reached `next`. */
  ghost predicate IdsBelow(items: seq<InfoItemDoc>, next: nat) {
    forall i :: 0 <= i < |items| && items[i].id.Some? ==> IssuedBefore(items[i].id.value, next)
  }

  /** The invariant a topic keeps over its items, given its generator's state. */
  ghost predicate WellKeyed(items: seq<InfoItemDoc>, next: nat) {
    UniqueIds(items) && IdsBelow(items, next)
  }

  // ---------------------------------------------------------------------------
  // Lookup
  // ---------------------------------------------------------------------------

  /** The position of the first item whose id is `id`, or None when no item has it. */
  function IndexOfItem(items: seq<InfoItemDoc>, id: Id): (r: Option<nat>)
    ensures r.Some? ==> r.value < |items| && items[r.value].id == Some(id)
    ensures r.Some? ==> forall j :: 0 <= j < r.value ==> items[j].id != Some(id)
    ensures r.None? <==> forall j :: 0 <= j < |items| ==> items[j].id != Some(id)
  {
    if |items| == 0 then None
    else if items[0].id == Some(id) then Some(0)
    else match IndexOfItem(items[1..], id)
      case None => None
      case Some(k) => Some(k + 1)
  }

  /** An index holding `id` is the one lookup returns, once ids are unique. */
  lemma IndexOfUnique(items: seq<InfoItemDoc>, k: nat)
    requires UniqueIds(items)
    requires k < |items| && items[k].id.Some?
    ensures IndexOfItem(items, items[k].id.value) == Some(k)
  {
  }

  /** Whether some item is an open action item. */
  function AnyOpenActionItem(items: seq<InfoItemDoc>): (r: bool)
    ensures r <==> exists i :: 0 <= i < |items| && IsOpenAction(items[i])
  {
    if |items| == 0 then false
    else IsOpenAction(items[0]) || AnyOpenActionItem(items[1..])
  }

  // ---------------------------------------------------------------------------
  // Upsert
  // ---------------------------------------------------------------------------

  /** The item as it is stored: an item without an id receives `freshId`. */
  function Stored(item: InfoItemDoc, freshId: Id): InfoItemDoc {
    if item.id.None? then item.(id := Some(freshId)) else item
  }

  /** Upsert by id. An item without an id gets `freshId` and is appended. An
      item whose id is already present replaces that item in place. An item
      with an id not yet present is appended as it is. */
  function Upserted(items: seq<InfoItemDoc>, item: InfoItemDoc, freshId: Id): seq<InfoItemDoc> {
    match item.id
    case None => items + [item.(id := Some(freshId))]
    case Some(id) =>
      match IndexOfItem(items, id)
      case Some(k) => items[k := item]
      case None => items + [item]
  }

  /** The count grows by one exactly when the item is new to the topic, and
      stays the same when it updates an item already there. */
  lemma UpsertCount(items: seq<InfoItemDoc>, item: InfoItemDoc, freshId: Id)
    ensures var isNew := item.id.None? || forall j :: 0 <= j < |items| ==> items[j].id != item.id;
            |Upserted(items, item, freshId)| == if isNew then |items| + 1 else |items|
  {
  }

  /** A new item lands after all existing items, which stay as they were, and
      keeps its subject; an item without an id receives `freshId`. */
  lemma UpsertInsert(items: seq<InfoItemDoc>, item: InfoItemDoc, freshId: Id)
    requires item.id.None? || forall j :: 0 <= j < |items| ==> items[j].id != item.id
    ensures var r := Upserted(items, item, freshId);
            && |r| == |items| + 1
            && r[..|items|] == items
            && r[|items|] == Stored(item, freshId)
            && r[|items|].subject == item.subject
            && r[|items|].id == Some(item.id.GetOr(freshId))
  {
  }

  /** Upserting an item whose id is present keeps the count and the id, puts
      the new document (and so its subject) at the old position and leaves
      every other item alone. */
  lemma UpsertUpdate(items: seq<InfoItemDoc>, item: InfoItemDoc, freshId: Id, k: nat)
    requires UniqueIds(items)
    requires k < |items| && items[k].id.Some? && item.id == items[k].id
    ensures var r := Upserted(items, item, freshId);
            && |r| == |items|
            && r[k] == item && r[k].id == items[k].id && r[k].subject == item.subject
            && forall j :: 0 <= j < |items| && j != k ==> r[j] == items[j]
  {
  }

  /** After an upsert, looking up the stored item's id finds the stored item,
      provided a fresh id really is fresh. */
  lemma UpsertThenFind(items: seq<InfoItemDoc>, item: InfoItemDoc, freshId: Id)
    requires item.id.None? ==> forall j :: 0 <= j < |items| ==> items[j].id != Some(freshId)
    ensures var r := Upserted(items, item, freshId);
            var s := Stored(item, freshId);
            && IndexOfItem(r, s.id.value).Some?
            && r[IndexOfItem(r, s.id.value).value] == s
  {
    var r := Upserted(items, item, freshId);
    var s := Stored(item, freshId);
    var id := s.id.value;
    if item.id.None? || IndexOfItem(items, id).None? {
      assert r == items + [s];
      assert r[|items|].id == Some(id);
    } else {
      var k := IndexOfItem(items, id).value;
      assert r == items[k := item];
      assert r[k].id == Some(id);
    }
  }

  /** Upsert keeps ids unique and every generated id issued; when it draws a
      fresh id the generator moves one past it. */
  lemma UpsertKeepsWellKeyed(items: seq<InfoItemDoc>, item: InfoItemDoc, next: nat)
    requires WellKeyed(items, next)
    requires item.id.Some? ==> IssuedBefore(item.id.value, next)
    ensures WellKeyed(Upserted(items, item, Generated(next)), if item.id.None? then next + 1 else next)
  {
  }

  // ---------------------------------------------------------------------------
  // Removal
  // ---------------------------------------------------------------------------

  /** Drops the item with id `id`; unchanged when no item has it. */
  function Removed(items: seq<InfoItemDoc>, id: Id): seq<InfoItemDoc> {
    match IndexOfItem(items, id)
    case Some(k) => items[..k] + items[k + 1..]
    case None => items
  }

  /** Removing a present id shrinks the count by exactly one, keeps the items
      before it in place and shifts the ones after it down by one, and leaves
      no item with that id; removing an absent id changes nothing. */
  lemma RemoveEffect(items: seq<InfoItemDoc>, id: Id)
    requires UniqueIds(items)
    ensures var r := Removed(items, id);
            match IndexOfItem(items, id)
            case None => r == items
            case Some(k) =>
              && |r| == |items| - 1
              && (forall j :: 0 <= j < k ==> r[j] == items[j])
              && (forall j :: k <= j < |r| ==> r[j] == items[j + 1])
              && IndexOfItem(r, id).None?
  {
    var r := Removed(items, id);
    match IndexOfItem(items, id)
    case None =>
    case Some(k) =>
      forall j | 0 <= j < |r|
        ensures r[j].id != Some(id)
      {
        if j < k {
          assert r[j] == items[j];
        } else {
          assert r[j] == items[j + 1];
        }
      }
  }

  /** Removal keeps ids unique and every generated id issued. */
  lemma RemoveKeepsWellKeyed(items: seq<InfoItemDoc>, id: Id, next: nat)
    requires WellKeyed(items, next)
    ensures WellKeyed(Removed(items, id), next)
  {
    var r := Removed(items, id);
    match IndexOfItem(items, id)
    case None =>
    case Some(k) =>
      // position in `items` of the item at position j of `r`
      var src := (j: int) => if j < k then j else j + 1;
      forall i | 0 <= i < |r|
        ensures r[i] == items[src(i)]
      {
      }
      forall i, j | 0 <= i < j < |r| && r[i].id.Some?
        ensures r[i].id != r[j].id
      {
        assert r[i] == items[src(i)] && r[j] == items[src(j)];
      }
  }

  /** Removing the id an insert just issued undoes the insert. */
  lemma RemoveUndoesInsert(items: seq<InfoItemDoc>, item: InfoItemDoc, freshId: Id)
    requires item.id.None? || forall j :: 0 <= j < |items| ==> items[j].id != item.id
    requires item.id.None? ==> forall j :: 0 <= j < |items| ==> items[j].id != Some(freshId)
    ensures Removed(Upserted(items, item, freshId), item.id.GetOr(freshId)) == items
  {
    var s := Stored(item, freshId);
    UpsertInsert(items, item, freshId);
    var r := Upserted(items, item, freshId);
    assert r == items + [s];
    assert r[|items|].id == s.id;
    assert IndexOfItem(r, s.id.value) == Some(|items|);
    assert r[..|items|] + r[|items| + 1..] == items;
  }

  // ---------------------------------------------------------------------------
  // Tailoring
  // ---------------------------------------------------------------------------

  /** The items whose open flag is set, in their original order: plain items
      and closed action items are dropped. */
  function Tailored(items: seq<InfoItemDoc>): (r: seq<InfoItemDoc>)
    ensures |r| <= |items|
  {
    if |items| == 0 then []
    else (if IsOpenAction(items[0]) then [items[0]] else []) + Tailored(items[1..])
  }

  /** Tailoring keeps exactly the open action items, each as often as it
      occurred, and nothing else. */
  lemma {:induction false} TailoredContents(items: seq<InfoItemDoc>)
    ensures forall x :: x in Tailored(items) <==> x in items && IsOpenAction(x)
    ensures forall x :: multiset(Tailored(items))[x] == if IsOpenAction(x) then multiset(items)[x] else 0
  {
    if |items| > 0 {
      TailoredContents(items[1..]);
      assert items == [items[0]] + items[1..];
    }
  }

  /** Tailoring decides the first item and tailors the rest. */
  lemma TailoredCons(x: InfoItemDoc, rest: seq<InfoItemDoc>)
    ensures Tailored([x] + rest) == (if IsOpenAction(x) then [x] else []) + Tailored(rest)
  {
  }

  /** Tailoring works item by item: it distributes over concatenation, which
      together with its effect on a single item fixes the order it keeps. */
  lemma {:induction false} TailoredAppend(a: seq<InfoItemDoc>, b: seq<InfoItemDoc>)
    ensures Tailored(a + b) == Tailored(a) + Tailored(b)
  {
    if |a| == 0 {
      assert a + b == b;
    } else {
      var head := if IsOpenAction(a[0]) then [a[0]] else [];
      assert a + b == [a[0]] + (a[1..] + b);
      TailoredCons(a[0], a[1..] + b);
      TailoredAppend(a[1..], b);
      calc {
        Tailored(a + b);
        head + Tailored(a[1..] + b);
        head + (Tailored(a[1..]) + Tailored(b));
        (head + Tailored(a[1..])) + Tailored(b);
        Tailored(a) + Tailored(b);
      }
    }
  }

  /** Tailoring a tailored sequence changes nothing. */
  lemma {:induction false} TailoredIdempotent(items: seq<InfoItemDoc>)
    ensures Tailored(Tailored(items)) == Tailored(items)
  {
    if |items| > 0 {
      var head := if IsOpenAction(items[0]) then [items[0]] else [];
      TailoredIdempotent(items[1..]);
      TailoredAppend(head, Tailored(items[1..]));
      assert Tailored(head) == head;
    }
  }

  /** A topic has an open action item exactly when tailoring leaves something,
      and tailoring never loses one. */
  lemma TailoredKeepsOpenActionItems(items: seq<InfoItemDoc>)
    ensures AnyOpenActionItem(items) <==> |Tailored(items)| > 0
    ensures AnyOpenActionItem(Tailored(items)) == AnyOpenActionItem(items)
  {
    var r := Tailored(items);
    TailoredContents(items);
    if AnyOpenActionItem(items) {
      var i :| 0 <= i < |items| && IsOpenAction(items[i]);
      assert items[i] in r;
    }
    if |r| > 0 {
      assert r[0] in r;
    }
  }

  /** Dropping the first item keeps ids unique. */
  lemma UniqueIdsTail(items: seq<InfoItemDoc>)
    requires |items| > 0 && UniqueIds(items)
    ensures UniqueIds(items[1..])
  {
  }

  /** Putting an item in front of unique ids keeps them unique when its id is new. */
  lemma UniqueIdsCons(x: InfoItemDoc, t: seq<InfoItemDoc>)
    requires UniqueIds(t)
    requires x.id.Some? ==> forall j :: 0 <= j < |t| ==> t[j].id != x.id
    ensures UniqueIds([x] + t)
  {
  }

  /** Tailoring keeps ids unique and every generated id issued. */
  lemma {:induction false} TailoredKeepsWellKeyed(items: seq<InfoItemDoc>, next: nat)
    requires WellKeyed(items, next)
    ensures WellKeyed(Tailored(items), next)
  {
    var r := Tailored(items);
    if |items| > 0 {
      var rest := items[1..];
      UniqueIdsTail(items);
      assert IdsBelow(rest, next) by {
        forall i | 0 <= i < |rest| && rest[i].id.Some?
          ensures IssuedBefore(rest[i].id.value, next)
        {
          assert rest[i] == items[i + 1];
        }
      }
      TailoredKeepsWellKeyed(rest, next);
      var t := Tailored(rest);
      if IsOpenAction(items[0]) {
        if items[0].id.Some? {
          forall j | 0 <= j < |t|
            ensures t[j].id != items[0].id
          {
            TailoredContents(rest);
            assert t[j] in rest;
            var m :| 0 <= m < |rest| && rest[m] == t[j];
            assert items[m + 1] == t[j];
          }
        }
        UniqueIdsCons(items[0], t);
        assert r == [items[0]] + t;
      } else {
        assert r == t;
      }
      TailoredContents(items);
      forall i | 0 <= i < |r| && r[i].id.Some?
        ensures IssuedBefore(r[i].id.value, next)
      {
        assert r[i] in items;
      }
    }
  }
}
