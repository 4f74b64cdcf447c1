/** A topic of a meeting's minutes: a wrapper around a mutable topic document
    that keeps the document's info items keyed by id, and the parent minutes
    it saves itself through. */
module Topics {
  import opened Wrappers
  import opened Ids
  import opened InfoItems

  /** The raw topic document. Its flags may be absent until a Topic wraps it. */
  class TopicDoc {
    var id: Option<Id>
    var subject: string
    var isOpen: Option<bool>
    var isNew: Option<bool>
    var infoItems: seq<InfoItemDoc>

    /** A document as a caller writes it: a subject and items, no id, no flags. */
    constructor (subject: string, infoItems: seq<InfoItemDoc>)
      ensures id == None && this.subject == subject
      ensures isOpen == None && isNew == None
      ensures this.infoItems == infoItems
    {
      id := None;
      this.subject := subject;
      isOpen := None;
      isNew := None;
      this.infoItems := infoItems;
    }
  }

  /** The parent minutes, as far as a topic sees them: an id and the
      upsert-topic hook. What the hook does with a document is outside this
      model; `upsertCalls` records every document it was handed, in order. */
  class Minutes {
    const id: string
    ghost var upsertCalls: seq<TopicDoc>

    constructor (id: string)
      ensures this.id == id && upsertCalls == []
    {
      this.id := id;
      upsertCalls := [];
    }

    method UpsertTopic(topicDoc: TopicDoc)
      modifies this
      ensures upsertCalls == old(upsertCalls) + [topicDoc]
    {
      upsertCalls := upsertCalls + [topicDoc];
    }
  }

  class Topic {
    /** The minutes this topic belongs to; fixed at construction. */
    const parentMinutes: Minutes
    /** The live document this topic edits in place; fixed at construction. */
    const topicDoc: TopicDoc
    /** The id generator new info items draw their ids from. */
    const ids: IdGen

    /** Both flags are set, item ids are unique, and every generated id among
        them was already issued by `ids`. */
    ghost predicate Valid()
      reads this, topicDoc, ids
    {
      && topicDoc.isOpen.Some?
      && topicDoc.isNew.Some?
      && WellKeyed(topicDoc.infoItems, ids.next)
    }

    /** Wraps `source` and the parent minutes. A missing `isOpen` or `isNew`
        flag is set to true on the document itself; everything else in it is
        left as it was. */
    constructor (parent: Minutes, source: TopicDoc, ids: IdGen)
      requires WellKeyed(source.infoItems, ids.next)
      modifies source
      ensures Valid()
      ensures parentMinutes == parent && topicDoc == source && this.ids == ids
      ensures source.isOpen == Some(old(source.isOpen).GetOr(true))
      ensures source.isNew == Some(old(source.isNew).GetOr(true))
      ensures source.id == old(source.id) && source.subject == old(source.subject)
      ensures source.infoItems == old(source.infoItems)
    {
      parentMinutes := parent;
      topicDoc := source;
      this.ids := ids;
      new;
      if source.isOpen.None? {
        source.isOpen := Some(true);
      }
      if source.isNew.None? {
        source.isNew := Some(true);
      }
    }

    /** The document itself, not a copy: later changes show through it. */
    function GetDocument(): (d: TopicDoc)
      ensures d == topicDoc
    {
      topicDoc
    }

    /** The live sequence of info-item documents. */
    function GetInfoItems(): (items: seq<InfoItemDoc>)
      reads topicDoc
      ensures items == topicDoc.infoItems
    {
      topicDoc.infoItems
    }

    /** The position of the first topic document in `topics` whose id equals
        `id` (an absent id matches an absent one), or None. */
    static function FindTopicIndexInArray(id: Option<Id>, topics: seq<TopicDoc>): (r: Option<nat>)
      reads topics
      ensures r.Some? ==> r.value < |topics| && topics[r.value].id == id
      ensures r.Some? ==> forall j :: 0 <= j < r.value ==> topics[j].id != id
      ensures r.None? <==> forall j :: 0 <= j < |topics| ==> topics[j].id != id
    {
      if |topics| == 0 then None
      else if topics[0].id == id then Some(0)
      else match FindTopicIndexInArray(id, topics[1..])
        case None => None
        case Some(k) => Some(k + 1)
    }

    /** Whether the document holds an action item that is still open. */
    static function HasOpenActionItem(topicDoc: TopicDoc): (r: bool)
      reads topicDoc
      ensures r <==> exists i :: 0 <= i < |topicDoc.infoItems| && topicDoc.infoItems[i].kind == Action(true)
    {
      AnyOpenActionItem(topicDoc.infoItems)
    }

    /** The instance form of HasOpenActionItem, on this topic's own document. */
    function InstanceHasOpenActionItem(): (r: bool)
      reads topicDoc
      ensures r == HasOpenActionItem(topicDoc)
      ensures r <==> exists i :: 0 <= i < |topicDoc.infoItems| && IsOpenAction(topicDoc.infoItems[i])
    {
      AnyOpenActionItem(topicDoc.infoItems)
    }

    /** Flips the topic's own open flag. */
    method ToggleState()
      requires Valid()
      modifies topicDoc
      ensures Valid()
      ensures topicDoc.isOpen == Some(!old(topicDoc.isOpen.value))
      ensures topicDoc.isNew == old(topicDoc.isNew) && topicDoc.id == old(topicDoc.id)
      ensures topicDoc.subject == old(topicDoc.subject) && topicDoc.infoItems == old(topicDoc.infoItems)
    {
      topicDoc.isOpen := Some(!topicDoc.isOpen.value);
    }

    /** The item whose id is `id`, or None when the topic has no such item. */
    function FindInfoItem(id: Id): (r: Option<InfoItemDoc>)
      reads topicDoc
      ensures r.Some? ==> r.value in topicDoc.infoItems && r.value.id == Some(id)
      ensures r.None? <==> forall j :: 0 <= j < |topicDoc.infoItems| ==> topicDoc.infoItems[j].id != Some(id)
    {
      match IndexOfItem(topicDoc.infoItems, id)
      case Some(k) => Some(topicDoc.infoItems[k])
      case None => None
    }

    /** With unique ids, looking up a stored item's id yields that very item. */
    lemma FindInfoItemIsTheOnlyOne(k: nat)
      requires Valid()
      requires k < |topicDoc.infoItems| && topicDoc.infoItems[k].id.Some?
      ensures FindInfoItem(topicDoc.infoItems[k].id.value) == Some(topicDoc.infoItems[k])
    {
      IndexOfUnique(topicDoc.infoItems, k);
    }

    /** Inserts or updates an info item. An item without an id is given a
        fresh one and appended; an item whose id is present replaces it in
        place; an item with an id not yet present is appended. Returns the id
        under which the item is stored. */
    method UpsertInfoItem(item: InfoItemDoc) returns (id: Id)
      requires Valid()
      requires item.id.Some? ==> IssuedBefore(item.id.value, ids.next)
      modifies topicDoc, ids
      ensures Valid()
      ensures id == item.id.GetOr(Generated(old(ids.next)))
      ensures ids.next == if item.id.None? then old(ids.next) + 1 else old(ids.next)
      ensures topicDoc.infoItems == Upserted(old(topicDoc.infoItems), item, Generated(old(ids.next)))
      ensures FindInfoItem(id) == Some(item.(id := Some(id)))
      ensures topicDoc.isOpen == old(topicDoc.isOpen) && topicDoc.isNew == old(topicDoc.isNew)
      ensures topicDoc.id == old(topicDoc.id) && topicDoc.subject == old(topicDoc.subject)
    {
      ghost var before := topicDoc.infoItems;
      ghost var next := ids.next;
      if item.id.None? {
        id := ids.NewId();
        topicDoc.infoItems := topicDoc.infoItems + [item.(id := Some(id))];
      } else {
        id := item.id.value;
        var k := IndexOfItem(topicDoc.infoItems, id);
        if k.Some? {
          topicDoc.infoItems := topicDoc.infoItems[k.value := item];
        } else {
          topicDoc.infoItems := topicDoc.infoItems + [item];
        }
      }
      UpsertKeepsWellKeyed(before, item, next);
      if item.id.None? {
        assert IssuedBefore(Generated(next), next + 1);
        forall j | 0 <= j < |before| && before[j].id.Some?
          ensures before[j].id != Some(Generated(next))
        {
          assert IssuedBefore(before[j].id.value, next);
        }
      }
      UpsertThenFind(before, item, Generated(next));
    }

    /** Removes the item whose id is `id`; nothing happens when there is none. */
    method RemoveInfoItem(id: Id)
      requires Valid()
      modifies topicDoc
      ensures Valid()
      ensures topicDoc.infoItems == Removed(old(topicDoc.infoItems), id)
      ensures FindInfoItem(id) == None
      ensures topicDoc.isOpen == old(topicDoc.isOpen) && topicDoc.isNew == old(topicDoc.isNew)
      ensures topicDoc.id == old(topicDoc.id) && topicDoc.subject == old(topicDoc.subject)
    {
      ghost var before := topicDoc.infoItems;
      var k := IndexOfItem(topicDoc.infoItems, id);
      if k.Some? {
        topicDoc.infoItems := topicDoc.infoItems[..k.value] + topicDoc.infoItems[k.value + 1..];
      }
      RemoveEffect(before, id);
      RemoveKeepsWellKeyed(before, id, ids.next);
    }

    /** Keeps only the open action items, in their order. */
    method TailorTopic()
      requires Valid()
      modifies topicDoc
      ensures Valid()
      ensures topicDoc.infoItems == Tailored(old(topicDoc.infoItems))
      ensures forall x :: x in topicDoc.infoItems <==> x in old(topicDoc.infoItems) && IsOpenAction(x)
      ensures topicDoc.isOpen == old(topicDoc.isOpen) && topicDoc.isNew == old(topicDoc.isNew)
      ensures topicDoc.id == old(topicDoc.id) && topicDoc.subject == old(topicDoc.subject)
    {
      TailoredKeepsWellKeyed(topicDoc.infoItems, ids.next);
      TailoredContents(topicDoc.infoItems);
      topicDoc.infoItems := Tailored(topicDoc.infoItems);
    }

    /** Hands the current document to the parent's upsert-topic hook, once. */
    method Save()
      modifies parentMinutes
      ensures parentMinutes.upsertCalls == old(parentMinutes.upsertCalls) + [topicDoc]
    {
      parentMinutes.UpsertTopic(topicDoc);
    }
  }
}
