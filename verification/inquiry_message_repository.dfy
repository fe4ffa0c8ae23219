/** The one derived query of the message table: a thread's messages in
    the order they were written. */
module InquiryMessageRepository {
  import opened InquiryModel
  import opened Ordering

  function InThread(inquiryId: nat): InquiryMessage -> bool {
    (m: InquiryMessage) => m.inquiryId == inquiryId
  }

  function OldestFirst(m: InquiryMessage): int {
    m.createdAt
  }

  /** `findByInquiryIdOrderByCreatedAtAsc`: every stored message of the
      thread, each as often as it is stored, and nothing else, in
      ascending `createdAt` order. */
  function FindByInquiryIdOrderByCreatedAtAsc(rows: seq<InquiryMessage>, inquiryId: nat): (r: seq<InquiryMessage>)
    ensures forall m :: multiset(r)[m] == if m.inquiryId == inquiryId then multiset(rows)[m] else 0
    ensures forall m :: m in r <==> m in rows && m.inquiryId == inquiryId
    ensures forall i, j :: 0 <= i < j < |r| ==> r[i].createdAt <= r[j].createdAt
  {
    SortBy(Where(rows, InThread(inquiryId)), OldestFirst)
  }

  /** A thread nobody has written to is empty. */
  lemma EmptyThread(rows: seq<InquiryMessage>, inquiryId: nat)
    requires forall k :: 0 <= k < |rows| ==> rows[k].inquiryId != inquiryId
    ensures FindByInquiryIdOrderByCreatedAtAsc(rows, inquiryId) == []
  {
    var r := FindByInquiryIdOrderByCreatedAtAsc(rows, inquiryId);
    assert multiset(r) == multiset{} by {
      forall m: InquiryMessage
        ensures multiset(r)[m] == 0
      {
        if m.inquiryId == inquiryId {
          assert m !in rows;
        }
      }
    }
  }

  /** Writing the first message to an empty thread makes it the whole thread. */
  lemma FirstMessageIsWholeThread(rows: seq<InquiryMessage>, m: InquiryMessage)
    requires forall k :: 0 <= k < |rows| ==> rows[k].inquiryId != m.inquiryId
    ensures FindByInquiryIdOrderByCreatedAtAsc(rows + [m], m.inquiryId) == [m]
  {
    var r := FindByInquiryIdOrderByCreatedAtAsc(rows + [m], m.inquiryId);
    assert multiset(rows + [m])[m] == 1 by {
      assert m !in rows;
      assert multiset(rows)[m] == 0;
    }
    assert |multiset(r)| == 1 by {
      assert multiset(r) == multiset{m};
    }
    assert r == [r[0]];
  }
}
