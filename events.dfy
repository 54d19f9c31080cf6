/** Emitted events and the splitting of an encoded topic list. */
module Events {
  import opened Types
  import opened Scale

  datatype EmittedEvent = EmittedEvent(topics: seq<Bytes>, data: Bytes)

  /** The concatenation of a list of byte strings. */
  function Flatten(parts: seq<Bytes>): (r: Bytes)
  {
    if parts == [] then [] else parts[0] + Flatten(parts[1..])
  }

  lemma FlattenCons(head: Bytes, tail: seq<Bytes>)
    ensures Flatten([head] + tail) == head + Flatten(tail)
  {
    assert ([head] + tail)[1..] == tail;
  }

  /** `slice::chunks(size)`: consecutive pieces of `size` bytes, of which only the last may
      be shorter; an empty slice has no pieces. */
  function Chunks(s: Bytes, size: nat): (cs: seq<Bytes>)
    requires size > 0
    ensures Flatten(cs) == s
    ensures forall i :: 0 <= i < |cs| ==> 0 < |cs[i]| <= size
    ensures forall i :: 0 <= i < |cs| - 1 ==> |cs[i]| == size
    ensures |s| <= |cs| * size
    ensures cs != [] ==> (|cs| - 1) * size < |s|
    decreases |s|
  {
    if |s| == 0 then []
    else if |s| <= size then
      assert Flatten([s]) == s by { FlattenCons(s, []); }
      [s]
    else
      var rest := Chunks(s[size..], size);
      FlattenCons(s[..size], rest);
      assert s[..size] + s[size..] == s;
      assert (1 + |rest|) * size == size + |rest| * size;
      [s[..size]] + rest
  }

  lemma MulSucc(a: nat, b: nat)
    ensures (a + 1) * b == a * b + b
  {
  }

  lemma MulAtLeast(a: nat, b: nat)
    requires a >= 1
    ensures a * b >= b && b * a >= b
  {
    MulSucc(a - 1, b);
  }

  /** A slice of exactly `count * size` bytes splits into `count` pieces of `size` bytes. */
  lemma {:induction false} ChunksOfMultiple(s: Bytes, size: nat, count: nat)
    requires size > 0 && |s| == count * size
    ensures |Chunks(s, size)| == count
    ensures forall i :: 0 <= i < count ==> |Chunks(s, size)[i]| == size
  {
    if count > 0 {
      MulSucc(count - 1, size);
      if count == 1 {
        assert |s| == size;
      } else {
        MulAtLeast(count - 1, size);
        assert |s[size..]| == (count - 1) * size;
        ChunksOfMultiple(s[size..], size, count - 1);
      }
    }
  }

  /** The topic count held in the first byte of an encoded topic list. */
  function TopicCount(topics: Bytes): (r: Option<nat>)
    requires |topics| >= 1
  {
    DecodeCompactOneByte(topics[0])
  }

  /** What `deposit_event` needs in order not to panic: a first byte (the slice `[0..1]`), a
      count in single-byte compact mode, a non-zero chunk size and as many chunks as the
      count (the `assert_eq!`). */
  predicate TopicsDecodable(topics: Bytes)
  {
    && |topics| >= 1
    && TopicCount(topics).Some?
    && var n := TopicCount(topics).value;
       n > 0 ==>
         var rest := topics[1..];
         |rest| / n > 0 && |Chunks(rest, |rest| / n)| == n
  }

  /** The panics amount to this: the first byte is `4 * n`, and for `n > 0` the remaining
      bytes are a positive multiple of `n`. */
  lemma TopicsDecodableIff(topics: Bytes)
    requires |topics| >= 1 && topics[0] % 4 == 0
    ensures var n := topics[0] / 4; var len := |topics| - 1;
      TopicsDecodable(topics) <==> n == 0 || (len >= n && len % n == 0)
  {
    var n := topics[0] / 4;
    if n > 0 {
      var rest := topics[1..];
      if |rest| >= n && |rest| % n == 0 {
        EvenSplitAccepted(rest, n);
      }
      if |rest| / n > 0 && |Chunks(rest, |rest| / n)| == n {
        AcceptedIsEven(rest, n);
      }
    }
  }

  lemma EvenSplitAccepted(rest: Bytes, n: nat)
    requires n > 0 && |rest| >= n && |rest| % n == 0
    ensures |rest| / n > 0 && |Chunks(rest, |rest| / n)| == n
  {
    var len, size := |rest|, |rest| / n;
    assert len == n * size + len % n;
    assert len == n * size;
    assert size > 0;
    ChunksOfMultiple(rest, size, n);
  }

  lemma AcceptedIsEven(rest: Bytes, n: nat)
    requires n > 0 && |rest| / n > 0 && |Chunks(rest, |rest| / n)| == n
    ensures |rest| >= n && |rest| % n == 0
  {
    var len, size := |rest|, |rest| / n;
    assert len == n * size + len % n;
    assert len <= n * size;
    MulAtLeast(size, n);
  }

  /** The topics `deposit_event` records: none for a zero count, otherwise the remaining
      bytes cut into `n` topics of equal length that together are those bytes. */
  function SplitTopics(topics: Bytes): (r: seq<Bytes>)
    requires TopicsDecodable(topics)
    ensures |r| == topics[0] / 4
    ensures r != [] ==> Flatten(r) == topics[1..]
    ensures forall i :: 0 <= i < |r| ==> |r[i]| == (|topics| - 1) / |r|
  {
    var n := TopicCount(topics).value;
    if n > 0 then
      var rest := topics[1..];
      TopicsDecodableIff(topics);
      ChunksOfMultiple(rest, |rest| / n, n);
      Chunks(rest, |rest| / n)
    else
      []
  }

  /** Two examples: count byte 0 gives no topics, even on a one-byte list;
      count 2 over 64 bytes gives two 32-byte topics. */
  lemma SplitTopicsExamples(payload: Bytes)
    requires |payload| == 64
    ensures TopicsDecodable([0]) && SplitTopics([0]) == []
    ensures TopicsDecodable([8] + payload)
    ensures var ts := SplitTopics([8] + payload);
      |ts| == 2 && |ts[0]| == 32 && |ts[1]| == 32 && ts[0] + ts[1] == payload
  {
    var topics := [8] + payload;
    assert topics[1..] == payload;
    TopicsDecodableIff(topics);
    var ts := SplitTopics(topics);
    FlattenCons(ts[0], ts[1..]);
    FlattenCons(ts[1], ts[2..]);
    assert ts[2..] == [];
  }
}
