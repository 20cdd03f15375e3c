/**
  The viewer's `std::multimap` keyed by time (cyber/record/record_viewer.h): an insertion goes
  behind every entry of the same time, so that inserting a list of messages one by one is a stable
  sort by time.  The viewer never sorts anything else, and takes from the front only; so all that
  its order rests on is how the stable sort splits at a time.
*/
module TimeMerge {
  import opened RecordFormat

  /** `emplace`: behind every entry whose time is not later. */
  function InsertByTime(buffer: seq<Message>, m: Message): seq<Message>
    decreases |buffer|
  {
    if buffer == [] || buffer[|buffer| - 1].time <= m.time then buffer + [m]
    else
      var k := |buffer| - 1;
      InsertByTime(buffer[..k], m) + [buffer[k]]
  }

  function InsertAll(buffer: seq<Message>, ms: seq<Message>): seq<Message>
    decreases |ms|
  {
    if ms == [] then buffer
    else InsertByTime(InsertAll(buffer, ms[..|ms| - 1]), ms[|ms| - 1])
  }

  /** The stable sort by time. */
  function SortByTime(ms: seq<Message>): seq<Message> {
    InsertAll([], ms)
  }

  /** The messages up to and those after time `h`, in order. */
  function UpTo(ms: seq<Message>, h: int): seq<Message>
    decreases |ms|
  {
    if ms == [] then []
    else UpTo(ms[..|ms| - 1], h) + if ms[|ms| - 1].time <= h then [ms[|ms| - 1]] else []
  }

  function After(ms: seq<Message>, h: int): seq<Message>
    decreases |ms|
  {
    if ms == [] then []
    else After(ms[..|ms| - 1], h) + if ms[|ms| - 1].time > h then [ms[|ms| - 1]] else []
  }

  lemma {:induction false} UpToAndAfter(ms: seq<Message>, h: int)
    ensures (forall m :: m in UpTo(ms, h) ==> m.time <= h) && forall m :: m in After(ms, h) ==> m.time > h
    decreases |ms|
  {
    if ms != [] {
      UpToAndAfter(ms[..|ms| - 1], h);
    }
  }

  lemma {:induction false} InsertIsSorted(buffer: seq<Message>, m: Message)
    requires Chronological(buffer)
    ensures Chronological(InsertByTime(buffer, m))
    ensures forall x :: x in InsertByTime(buffer, m) ==> x in buffer || x == m
    decreases |buffer|
  {
    if buffer != [] && buffer[|buffer| - 1].time > m.time {
      var k := |buffer| - 1;
      InsertIsSorted(buffer[..k], m);
      var r := InsertByTime(buffer[..k], m);
      forall i | 0 <= i < |r| ensures r[i].time <= buffer[k].time {
        assert r[i] in buffer[..k] || r[i] == m;
      }
    }
  }

  lemma {:induction false} InsertKeepsMessages(buffer: seq<Message>, m: Message)
    ensures multiset(InsertByTime(buffer, m)) == multiset(buffer) + multiset{m}
    decreases |buffer|
  {
    if buffer != [] && buffer[|buffer| - 1].time > m.time {
      var k := |buffer| - 1;
      InsertKeepsMessages(buffer[..k], m);
      assert buffer == buffer[..k] + [buffer[k]];
    }
  }

  /** Sorting gives the same messages in time order. */
  lemma {:induction false} SortIsSorted(ms: seq<Message>)
    ensures Chronological(SortByTime(ms))
    ensures multiset(SortByTime(ms)) == multiset(ms)
    decreases |ms|
  {
    if ms != [] {
      var k := |ms| - 1;
      SortIsSorted(ms[..k]);
      InsertIsSorted(SortByTime(ms[..k]), ms[k]);
      InsertKeepsMessages(SortByTime(ms[..k]), ms[k]);
      assert ms == ms[..k] + [ms[k]];
    }
  }

  lemma SortedMembers(ms: seq<Message>, x: Message)
    ensures x in SortByTime(ms) <==> x in ms
  {
    SortIsSorted(ms);
    assert x in multiset(ms) <==> x in ms;
    assert x in multiset(SortByTime(ms)) <==> x in SortByTime(ms);
  }

  /** A message that is not late goes into the later part only. */
  lemma {:induction false} InsertIntoLater(a: seq<Message>, b: seq<Message>, m: Message)
    requires forall x :: x in a ==> x.time <= m.time
    ensures InsertByTime(a + b, m) == a + InsertByTime(b, m)
    decreases |b|
  {
    if b == [] {
      assert a + b == a;
      assert InsertByTime(a, m) == a + [m];
    } else {
      var k := |b| - 1;
      assert (a + b)[|a + b| - 1] == b[k];
      if b[k].time <= m.time {
        assert (a + b) + [m] == a + (b + [m]);
      } else {
        assert (a + b)[..|a + b| - 1] == a + b[..k];
        InsertIntoLater(a, b[..k], m);
        assert (a + InsertByTime(b[..k], m)) + [b[k]] == a + (InsertByTime(b[..k], m) + [b[k]]);
      }
    }
  }

  /** An early message goes into the earlier part only. */
  lemma {:induction false} InsertIntoEarlier(a: seq<Message>, b: seq<Message>, m: Message)
    requires forall x :: x in b ==> x.time > m.time
    ensures InsertByTime(a + b, m) == InsertByTime(a, m) + b
    decreases |b|
  {
    if b == [] {
      assert a + b == a;
      assert InsertByTime(a, m) + b == InsertByTime(a, m);
    } else {
      var k := |b| - 1;
      assert (a + b)[|a + b| - 1] == b[k];
      assert b[k] in b;
      assert (a + b)[..|a + b| - 1] == a + b[..k];
      InsertIntoEarlier(a, b[..k], m);
      assert b == b[..k] + [b[k]];
      assert (InsertByTime(a, m) + b[..k]) + [b[k]] == InsertByTime(a, m) + b;
    }
  }

  /** Inserting messages that are not earlier than the buffer appends their sort. */
  lemma {:induction false} InsertAllLater(buffer: seq<Message>, ms: seq<Message>)
    requires forall x, m :: x in buffer && m in ms ==> x.time <= m.time
    ensures InsertAll(buffer, ms) == buffer + SortByTime(ms)
    decreases |ms|
  {
    if ms == [] {
      assert buffer + [] == buffer;
    } else {
      var k := |ms| - 1;
      InsertAllLater(buffer, ms[..k]);
      InsertIntoLater(buffer, SortByTime(ms[..k]), ms[k]);
    }
  }

  /** The three functions on one more message. */
  lemma NextMessage(ms: seq<Message>, h: int)
    requires ms != []
    ensures var rest, m := ms[..|ms| - 1], ms[|ms| - 1];
      && SortByTime(ms) == InsertByTime(SortByTime(rest), m)
      && UpTo(ms, h) == (if m.time <= h then UpTo(rest, h) + [m] else UpTo(rest, h))
      && After(ms, h) == (if m.time <= h then After(rest, h) else After(rest, h) + [m])
  {
  }

  /** A stable sort is the sort of the early messages followed by the sort of the late ones. */
  lemma {:induction false} SortSplits(ms: seq<Message>, h: int)
    ensures SortByTime(ms) == SortByTime(UpTo(ms, h)) + SortByTime(After(ms, h))
    decreases |ms|
  {
    if ms != [] {
      hide *;
      var k := |ms| - 1;
      SortSplits(ms[..k], h);
      UpToAndAfter(ms[..k], h);
      SplitNext(UpTo(ms[..k], h), After(ms[..k], h), ms[k], h);
      NextMessage(ms, h);
    }
  }

  lemma SplitNext(lo: seq<Message>, hi: seq<Message>, m: Message, h: int)
    requires (forall x :: x in lo ==> x.time <= h) && forall x :: x in hi ==> x.time > h
    ensures InsertByTime(SortByTime(lo) + SortByTime(hi), m) ==
      if m.time <= h then SortByTime(lo + [m]) + SortByTime(hi) else SortByTime(lo) + SortByTime(hi + [m])
  {
    if m.time <= h {
      forall x | x in SortByTime(hi) ensures x.time > m.time {
        SortedMembers(hi, x);
      }
      InsertIntoEarlier(SortByTime(lo), SortByTime(hi), m);
      InsertAllSnoc([], lo, m);
    } else {
      forall x | x in SortByTime(lo) ensures x.time <= m.time {
        SortedMembers(lo, x);
      }
      InsertIntoLater(SortByTime(lo), SortByTime(hi), m);
      InsertAllSnoc([], hi, m);
    }
  }

  lemma InsertAllSnoc(buffer: seq<Message>, ms: seq<Message>, m: Message)
    ensures InsertAll(buffer, ms + [m]) == InsertByTime(InsertAll(buffer, ms), m)
  {
    assert (ms + [m])[..|ms|] == ms;
  }

  lemma {:induction false} InsertAllConcat(buffer: seq<Message>, a: seq<Message>, b: seq<Message>)
    ensures InsertAll(buffer, a + b) == InsertAll(InsertAll(buffer, a), b)
    decreases |b|
  {
    if b == [] {
      assert a + b == a;
    } else {
      var k := |b| - 1;
      assert a + b == (a + b[..k]) + [b[k]];
      InsertAllSnoc(buffer, a + b[..k], b[k]);
      InsertAllConcat(buffer, a, b[..k]);
    }
  }

  lemma {:induction false} UpToConcat(a: seq<Message>, b: seq<Message>, h: int)
    ensures UpTo(a + b, h) == UpTo(a, h) + UpTo(b, h)
    decreases |b|
  {
    if b == [] {
      assert a + b == a;
    } else {
      var k := |b| - 1;
      assert (a + b)[..|a + b| - 1] == a + b[..k];
      UpToConcat(a, b[..k], h);
    }
  }

  lemma {:induction false} AfterConcat(a: seq<Message>, b: seq<Message>, h: int)
    ensures After(a + b, h) == After(a, h) + After(b, h)
    decreases |b|
  {
    if b == [] {
      assert a + b == a;
    } else {
      var k := |b| - 1;
      assert (a + b)[..|a + b| - 1] == a + b[..k];
      AfterConcat(a, b[..k], h);
    }
  }

  lemma {:induction false} AllUpTo(ms: seq<Message>, h: int)
    ensures (forall m :: m in ms ==> m.time <= h) ==> UpTo(ms, h) == ms && After(ms, h) == []
    ensures (forall m :: m in ms ==> m.time > h) ==> UpTo(ms, h) == [] && After(ms, h) == ms
    decreases |ms|
  {
    if ms != [] {
      var k := |ms| - 1;
      AllUpTo(ms[..k], h);
      assert ms == ms[..k] + [ms[k]];
      assert ms[k] in ms;
    }
  }

  /** A chronological list is its own sort. */
  lemma {:induction false} SortOfSorted(ms: seq<Message>)
    requires Chronological(ms)
    ensures SortByTime(ms) == ms
    decreases |ms|
  {
    if ms != [] {
      var k := |ms| - 1;
      FrontIsEarlier(ms);
      hide *;
      SortOfSorted(ms[..k]);
      NextMessage(ms, 0);
      InsertIntoLater(ms[..k], [], ms[k]);
      assert ms[..k] + [] == ms[..k] && ms == ms[..k] + [ms[k]];
      InsertIntoEmpty(ms[k]);
    }
  }

  lemma FrontIsEarlier(ms: seq<Message>)
    requires Chronological(ms) && ms != []
    ensures Chronological(ms[..|ms| - 1])
    ensures forall x :: x in ms[..|ms| - 1] ==> x.time <= ms[|ms| - 1].time
  {
  }

  lemma InsertIntoEmpty(m: Message)
    ensures InsertByTime([], m) == [m]
  {
  }
}
