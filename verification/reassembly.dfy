/**
 * Reassembly of a multi-chunk transfer (P2Pclipbord2/src/MessageProtocol.cpp,
 * the completion branch of decodeData): the stored chunks are sorted by
 * chunkIndex and their payloads joined in that order.
 *
 * The source sorts with std::sort, which is not stable; this model sorts
 * stably (insertion sort). The two agree whenever the chunk indices are
 * distinct, which is the case for every transfer `encodeMessage` produces.
 */
module Reassembly {
  import opened Common
  import opened WireFormat

  /** MessageProtocol::MessageChunk. */
  datatype MessageChunk = MessageChunk(contentType: ContentType, transferId: u32, chunkIndex: u32,
                                       totalChunks: u32, payload: seq<byte>)

  predicate SortedByIndex(s: seq<MessageChunk>)
  {
    forall i, j :: 0 <= i < j < |s| ==> s[i].chunkIndex <= s[j].chunkIndex
  }

  predicate StrictlySortedByIndex(s: seq<MessageChunk>)
  {
    forall i, j :: 0 <= i < j < |s| ==> s[i].chunkIndex < s[j].chunkIndex
  }

  /** Insert `c` in front of the first chunk whose index is not smaller. */
  function InsertByIndex(c: MessageChunk, sorted: seq<MessageChunk>): (r: seq<MessageChunk>)
    requires SortedByIndex(sorted)
    ensures SortedByIndex(r)
    ensures multiset(r) == multiset(sorted) + multiset{c}
    decreases |sorted|
  {
    if sorted == [] || c.chunkIndex <= sorted[0].chunkIndex then [c] + sorted
    else
      var rest := InsertByIndex(c, sorted[1..]);
      InsertBehindHead(c, sorted, rest);
      [sorted[0]] + rest
  }

  /** The step of InsertByIndex that keeps the head of `sorted` in front. */
  lemma InsertBehindHead(c: MessageChunk, sorted: seq<MessageChunk>, rest: seq<MessageChunk>)
    requires SortedByIndex(sorted) && sorted != [] && sorted[0].chunkIndex < c.chunkIndex
    requires SortedByIndex(rest) && multiset(rest) == multiset(sorted[1..]) + multiset{c}
    ensures SortedByIndex([sorted[0]] + rest)
    ensures multiset([sorted[0]] + rest) == multiset(sorted) + multiset{c}
  {
    assert sorted == [sorted[0]] + sorted[1..];
    var r := [sorted[0]] + rest;
    forall k | 0 <= k < |rest|
      ensures sorted[0].chunkIndex <= rest[k].chunkIndex
    {
      assert rest[k] in multiset(rest);
      if rest[k] != c {
        assert rest[k] in multiset(sorted[1..]);
        var m :| 0 <= m < |sorted[1..]| && sorted[1..][m] == rest[k];
        assert sorted[m + 1] == rest[k];
      }
    }
    forall i, j | 0 <= i < j < |r|
      ensures r[i].chunkIndex <= r[j].chunkIndex
    {
      if i > 0 {
        assert r[i] == rest[i - 1] && r[j] == rest[j - 1];
      } else {
        assert r[j] == rest[j - 1];
      }
    }
  }

  /** The order `std::sort` by chunkIndex puts the stored chunks in. */
  function SortByIndex(s: seq<MessageChunk>): (r: seq<MessageChunk>)
    ensures SortedByIndex(r)
    ensures multiset(r) == multiset(s)
  {
    if s == [] then []
    else
      assert s == [s[0]] + s[1..];
      InsertByIndex(s[0], SortByIndex(s[1..]))
  }

  /** The payloads of the chunks, concatenated in sequence order. */
  function JoinPayloads(s: seq<MessageChunk>): (r: seq<byte>)
    decreases |s|
  {
    if s == [] then [] else JoinPayloads(s[..|s| - 1]) + s[|s| - 1].payload
  }

  lemma {:induction false} JoinPayloadsIsFlatten(s: seq<MessageChunk>, pieces: seq<seq<byte>>)
    requires |s| == |pieces| && forall i :: 0 <= i < |s| ==> s[i].payload == pieces[i]
    ensures JoinPayloads(s) == Flatten(pieces)
    decreases |s|
  {
    if s != [] {
      JoinPayloadsIsFlatten(s[..|s| - 1], pieces[..|s| - 1]);
    }
  }

  /** Dropping the head of a non-empty sequence removes one copy of it from the multiset. */
  lemma MultisetTail(s: seq<MessageChunk>)
    requires s != []
    ensures multiset(s[1..]) == multiset(s) - multiset{s[0]}
  {
    assert s == [s[0]] + s[1..];
  }

  /** Under the hypotheses of SortedOrderUnique the two sequences start with the same chunk. */
  lemma SameHead(a: seq<MessageChunk>, b: seq<MessageChunk>)
    requires SortedByIndex(a) && StrictlySortedByIndex(b)
    requires multiset(a) == multiset(b) && a != [] && b != []
    ensures a[0] == b[0]
  {
    assert a[0] in multiset(b) && b[0] in multiset(a);
    var j :| 0 <= j < |b| && b[j] == a[0];
    var i :| 0 <= i < |a| && a[i] == b[0];
    assert a[0].chunkIndex <= a[i].chunkIndex;
    assert j == 0;
  }

  /**
   * A sequence sorted by index and a strictly sorted one holding the same
   * chunks are equal: with distinct indices the sorted order is unique, so the
   * order of arrival does not matter.
   */
  lemma {:induction false} SortedOrderUnique(a: seq<MessageChunk>, b: seq<MessageChunk>)
    requires SortedByIndex(a) && StrictlySortedByIndex(b)
    requires multiset(a) == multiset(b)
    ensures a == b
    decreases |a|
  {
    assert |a| == |multiset(a)| == |multiset(b)| == |b|;
    if a != [] {
      SameHead(a, b);
      MultisetTail(a);
      MultisetTail(b);
      SortedOrderUnique(a[1..], b[1..]);
      assert a == [a[0]] + a[1..] && b == [b[0]] + b[1..];
    }
  }

  /** Sorting any arrival order of a transfer with distinct, increasing indices restores that order. */
  lemma SortRestoresOrder(arrival: seq<MessageChunk>, ordered: seq<MessageChunk>)
    requires StrictlySortedByIndex(ordered)
    requires multiset(arrival) == multiset(ordered)
    ensures SortByIndex(arrival) == ordered
    ensures JoinPayloads(SortByIndex(arrival)) == JoinPayloads(ordered)
  {
    SortedOrderUnique(SortByIndex(arrival), ordered);
  }
}
