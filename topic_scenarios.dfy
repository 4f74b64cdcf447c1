/** The unit-test cases for Topic, replayed against the contracts above: each
    method builds the same objects as its test and asserts what the test
    expects. */
module TopicScenarios {
  import opened Wrappers
  import opened Ids
  import opened InfoItems
  import opened Topics

  /** A document shaped like the tests' `topicDoc`: a subject and no items. */
  method FreshDoc() returns (doc: TopicDoc)
    ensures fresh(doc)
    ensures doc.id == None && doc.subject == "topic-subject"
    ensures doc.isOpen == None && doc.isNew == None && doc.infoItems == []
  {
    doc := new TopicDoc("topic-subject", []);
  }

  method ConstructorScenario() {
    var minutes := new Minutes("AaBbCcDd");
    var gen := new IdGen();
    var doc := FreshDoc();
    var topic := new Topic(minutes, doc, gen);
    assert topic.parentMinutes == minutes;
    assert topic.topicDoc.subject == "topic-subject";
    assert topic.topicDoc.isOpen == Some(true);
    assert topic.topicDoc.isNew == Some(true);
    assert topic.GetDocument() == doc;
  }

  method FindTopicIndexScenario() {
    var doc := FreshDoc();
    var index := Topic.FindTopicIndexInArray(doc.id, [doc]);
    assert index == Some(0);
  }

  method HasOpenActionItemScenario() {
    var doc := FreshDoc();
    assert !Topic.HasOpenActionItem(doc);
    var closed := InfoItemDoc(None, "", None, Action(false));
    doc.infoItems := doc.infoItems + [closed];
    assert doc.infoItems == [closed];
    assert !Topic.HasOpenActionItem(doc);
    doc.infoItems := doc.infoItems[0 := closed.(kind := Action(true))];
    assert IsOpenAction(doc.infoItems[0]);
    assert Topic.HasOpenActionItem(doc);
    var minutes := new Minutes("AaBbCcDd");
    var gen := new IdGen();
    var topic := new Topic(minutes, doc, gen);
    assert topic.InstanceHasOpenActionItem();
  }

  method ToggleStateScenario() {
    var minutes := new Minutes("AaBbCcDd");
    var gen := new IdGen();
    var doc := FreshDoc();
    var topic := new Topic(minutes, doc, gen);
    var oldState := topic.topicDoc.isOpen;
    topic.ToggleState();
    assert topic.topicDoc.isOpen != oldState;
    topic.ToggleState();
    assert topic.topicDoc.isOpen == oldState;
  }

  method UpsertScenario(now: Timestamp) {
    var minutes := new Minutes("AaBbCcDd");
    var gen := new IdGen();
    var doc := FreshDoc();
    var topic := new Topic(minutes, doc, gen);
    var item := InfoItemDoc(None, "info-item-subject", Some(now), Discussion);

    // adds a new info item
    var id := topic.UpsertInfoItem(item);
    assert |topic.GetInfoItems()| == 1;
    assert topic.GetInfoItems()[0].id == Some(id);
    assert topic.GetInfoItems()[0].subject == "info-item-subject";

    // updates the existing info item
    var changed := topic.GetInfoItems()[0].(subject := "new_subject");
    var id2 := topic.UpsertInfoItem(changed);
    assert id2 == id;
    assert |topic.GetInfoItems()| == 1;
    assert topic.GetInfoItems()[0].id == Some(id);
    assert topic.GetInfoItems()[0].subject == "new_subject";
  }

  method FindInfoItemScenario(now: Timestamp) {
    var minutes := new Minutes("AaBbCcDd");
    var gen := new IdGen();
    var doc := FreshDoc();
    var topic := new Topic(minutes, doc, gen);
    var item := InfoItemDoc(Some(Named("AaBbCcDd01")), "info-item-subject", Some(now), Discussion);
    assert topic.FindInfoItem(Named("AaBbCcDd01")) == None;
    var _ := topic.UpsertInfoItem(item);
    var found := topic.FindInfoItem(Named("AaBbCcDd01"));
    assert found.Some? && found.value.subject == "info-item-subject";
  }

  method RemoveInfoItemScenario(now: Timestamp) {
    var minutes := new Minutes("AaBbCcDd");
    var gen := new IdGen();
    var doc := FreshDoc();
    var topic := new Topic(minutes, doc, gen);
    var item1 := InfoItemDoc(Some(Named("AaBbCcDd01")), "info-item-subject", Some(now), Discussion);
    var item2 := InfoItemDoc(Some(Named("AaBbCcDd02")), "info-item-subject2", Some(now), Discussion);
    var _ := topic.UpsertInfoItem(item1);
    UpsertInsert([], item1, Generated(1));
    var _ := topic.UpsertInfoItem(item2);
    UpsertInsert([item1], item2, Generated(1));
    var initialLength := |topic.GetInfoItems()|;
    topic.RemoveInfoItem(Named("AaBbCcDd02"));
    RemoveUndoesInsert([item1], item2, Generated(1));
    assert topic.GetInfoItems() == [item1];
    assert initialLength - |topic.GetInfoItems()| == 1;
    assert topic.GetInfoItems()[0].id == Some(Named("AaBbCcDd01"));
  }

  /** The test's three items: a plain one, a closed and an open action item. */
  lemma TailorThreeItems(plain: InfoItemDoc, closed: InfoItemDoc, open: InfoItemDoc)
    requires plain.kind == Discussion && closed.kind == Action(false) && open.kind == Action(true)
    ensures Tailored([plain, closed, open]) == [open]
  {
    TailoredCons(open, []);
    TailoredCons(closed, [open]);
    TailoredCons(plain, [closed, open]);
    assert [plain] + [closed, open] == [plain, closed, open];
    assert [closed] + [open] == [closed, open];
    assert [open] + [] == [open];
  }

  method TailorTopicScenario() {
    var minutes := new Minutes("AaBbCcDd");
    var gen := new IdGen();
    var doc := FreshDoc();
    var plain := InfoItemDoc(None, "myInfoItem", None, Discussion);
    var closed := InfoItemDoc(None, "myClosedActionItem", None, Action(false));
    var open := InfoItemDoc(None, "myOpenActionItem", None, Action(true));
    var items := [plain, closed, open];
    TailorThreeItems(plain, closed, open);
    doc.infoItems := items;
    var topic := new Topic(minutes, doc, gen);
    topic.TailorTopic();
    assert |topic.GetInfoItems()| == 1;
    assert topic.topicDoc.infoItems[0].kind == Action(true);
  }

  method SaveScenario() {
    var minutes := new Minutes("AaBbCcDd");
    var gen := new IdGen();
    var doc := FreshDoc();
    var topic := new Topic(minutes, doc, gen);
    var callsBefore := minutes.upsertCalls;
    topic.Save();
    assert minutes.upsertCalls == callsBefore + [topic.topicDoc];
  }
}
