/**
  Which messages of a file the windowed reads lose.  A message is overtaken when an earlier one of
  the file lies in a later window, or behind the whole range: the reader has stopped at that one,
  and by the time it goes on the window of the overtaken message has passed.  Nothing else is lost.
*/
module Overtaking {
  import opened RecordFormat
  import opened WindowScan

  /** The messages of the closed range, in file order. */
  function InRange(s: seq<Message>, b: nat, e: int): seq<Message>
    decreases |s|
  {
    if s == [] then []
    else
      var k := |s| - 1;
      InRange(s[..k], b, e) + if b <= s[k].time <= e then [s[k]] else []
  }

  /** Message `j` of the file makes the reader wait until after the window that begins at `w`. */
  predicate Blocks(s: seq<Message>, j: nat, w: nat, b: nat, e: int, step: nat)
    requires j < |s|
  {
    s[j].time > e || (s[j].time >= b && WindowBegin(b, step, s[j].time) > w)
  }

  predicate Overtaken(s: seq<Message>, i: nat, b: nat, e: int, step: nat)
    requires i < |s| && b <= s[i].time
  {
    exists j: nat :: j < i && Blocks(s, j, WindowBegin(b, step, s[i].time), b, e, step)
  }

  /** The messages of the range among the first `n` that no earlier message overtakes. */
  function Kept(s: seq<Message>, n: nat, b: nat, e: int, step: nat): seq<Message>
    requires n <= |s|
    decreases n
  {
    if n == 0 then [] else
      Kept(s, n - 1, b, e, step) +
      if b <= s[n - 1].time <= e && !Overtaken(s, n - 1, b, e, step) then [s[n - 1]] else []
  }

  /** `w` is where the reader's windows stand after the first `n` messages. */
  ghost predicate StandsAt(s: seq<Message>, n: nat, w: nat, b: nat, e: int, step: nat)
    requires n <= |s|
  {
    && b <= w && WindowBegin(b, step, w) == w
    && (forall j: nat :: j < n ==> !Blocks(s, j, w, b, e, step))
    && (w == b || exists j: nat {:trigger s[j]} :: j < n && b <= s[j].time && WindowBegin(b, step, s[j].time) == w)
  }

  /** Windows that go on from one of their begins are the same windows. */
  lemma {:induction false} WindowsAgree(b: nat, step: nat, w: nat, t: nat)
    requires b <= w <= t && WindowBegin(b, step, w) == w
    ensures WindowBegin(w, step, t) == WindowBegin(b, step, t)
    decreases w - b
  {
    if w > b + step {
      WindowsAgree(b + step + 1, step, w, t);
    }
  }

  lemma {:induction false} WindowOf(b: nat, step: nat, t: nat)
    requires b <= t
    ensures WindowBegin(b, step, WindowBegin(b, step, t)) == WindowBegin(b, step, t)
    decreases t - b
  {
    if t > b + step {
      WindowOf(b + step + 1, step, t);
    }
  }

  /** A message is before the window the reader stands at iff its own window is. */
  lemma BeforeWindow(b: nat, step: nat, w: nat, t: nat)
    requires b <= w && b <= t && WindowBegin(b, step, w) == w
    ensures t < w <==> WindowBegin(b, step, t) < w
  {
    if t >= w {
      WindowsAgree(b, step, w, t);
    }
  }

  /** The reader's place after one more message that does not move it on. */
  lemma StandsStill(s: seq<Message>, n: nat, w: nat, b: nat, e: int, step: nat)
    requires n < |s| && StandsAt(s, n, w, b, e, step) && !Blocks(s, n, w, b, e, step)
    ensures StandsAt(s, n + 1, w, b, e, step)
  {
    if w != b {
      var j: nat :| j < n && b <= s[j].time && WindowBegin(b, step, s[j].time) == w;
      assert j < n + 1;
    }
  }

  /** A message before the current window is overtaken, or before the whole range. */
  lemma LateIsOvertaken(s: seq<Message>, n: nat, w: nat, b: nat, e: int, step: nat)
    requires n < |s| && StandsAt(s, n, w, b, e, step) && b <= s[n].time < w && s[n].time <= e
    ensures Overtaken(s, n, b, e, step) && !Blocks(s, n, w, b, e, step)
  {
    BeforeWindow(b, step, w, s[n].time);
    var j: nat :| j < n && b <= s[j].time && WindowBegin(b, step, s[j].time) == w;
    assert Blocks(s, j, WindowBegin(b, step, s[n].time), b, e, step);
  }

  lemma TakeNext(s: seq<Message>, n: nat, w: nat, b: nat, e: int, step: nat)
    requires n < |s| && StandsAt(s, n, w, b, e, step) && w <= s[n].time <= e
    ensures var v := WindowBegin(b, step, s[n].time);
      && WindowBegin(w, step, s[n].time) == v
      && StandsAt(s, n + 1, v, b, e, step)
      && !Overtaken(s, n, b, e, step)
  {
    var v := WindowBegin(b, step, s[n].time);
    WindowOf(b, step, s[n].time);
    BeforeWindow(b, step, w, s[n].time);
    WindowsAgree(b, step, w, s[n].time);
    forall j: nat | j < n ensures !Blocks(s, j, v, b, e, step) {
      assert !Blocks(s, j, w, b, e, step);
      assert s[j] == s[j];
    }
    assert !Overtaken(s, n, b, e, step);
  }

  lemma KeptNext(s: seq<Message>, n: nat, b: nat, e: int, step: nat)
    requires n < |s|
    ensures !(b <= s[n].time <= e) || Overtaken(s, n, b, e, step) ==>
      Kept(s, n + 1, b, e, step) == Kept(s, n, b, e, step)
    ensures b <= s[n].time <= e && !Overtaken(s, n, b, e, step) ==>
      Kept(s, n + 1, b, e, step) == Kept(s, n, b, e, step) + [s[n]]
  {
    assert Kept(s, n, b, e, step) + [] == Kept(s, n, b, e, step);
  }

  lemma VisibleNext(s: seq<Message>, n: nat, w: nat, e: int, step: nat)
    requires n < |s| && s[n].time <= e
    ensures s[n].time < w ==> Visible(s[n..], w, e, step) == Visible(s[n + 1..], w, e, step)
    ensures w <= s[n].time ==>
      Visible(s[n..], w, e, step) == [s[n]] + Visible(s[n + 1..], WindowBegin(w, step, s[n].time), e, step)
  {
    assert s[n..][0] == s[n] && s[n..][1..] == s[n + 1..];
  }

  /** One message moves from what the scan still sees to what is kept, or is in neither. */
  lemma ScanNext(s: seq<Message>, n: nat, w: nat, b: nat, e: int, step: nat) returns (v: nat)
    requires n < |s| && StandsAt(s, n, w, b, e, step) && s[n].time <= e
    ensures StandsAt(s, n + 1, v, b, e, step)
    ensures Kept(s, n, b, e, step) + Visible(s[n..], w, e, step)
         == Kept(s, n + 1, b, e, step) + Visible(s[n + 1..], v, e, step)
  {
    VisibleNext(s, n, w, e, step);
    KeptNext(s, n, b, e, step);
    if s[n].time < w {
      v := w;
      if b <= s[n].time {
        LateIsOvertaken(s, n, w, b, e, step);
      }
      StandsStill(s, n, w, b, e, step);
    } else {
      v := WindowBegin(b, step, s[n].time);
      TakeNext(s, n, w, b, e, step);
    }
  }

  /** The scan of what is left agrees with the filter, from every place of the file on. */
  lemma {:induction false} ScanIsKept(s: seq<Message>, n: nat, w: nat, b: nat, e: int, step: nat)
    requires n <= |s| && StandsAt(s, n, w, b, e, step)
    ensures Kept(s, |s|, b, e, step) == Kept(s, n, b, e, step) + Visible(s[n..], w, e, step)
    decreases |s| - n
  {
    if n < |s| && s[n].time <= e {
      var v := ScanNext(s, n, w, b, e, step);
      ScanIsKept(s, n + 1, v, b, e, step);
    } else {
      KeptNoMore(s, n, |s|, b, e, step);
      assert Visible(s[n..], w, e, step) == [];
    }
  }

  /** Behind a message that is later than the range nothing is kept. */
  lemma {:induction false} KeptNoMore(s: seq<Message>, i: nat, n: nat, b: nat, e: int, step: nat)
    requires i <= n <= |s| && (i < |s| ==> s[i].time > e)
    ensures Kept(s, n, b, e, step) == Kept(s, i, b, e, step)
    decreases n
  {
    if i < n {
      KeptNoMore(s, i, n - 1, b, e, step);
      if b <= s[n - 1].time <= e {
        assert Blocks(s, i, WindowBegin(b, step, s[n - 1].time), b, e, step);
      }
    }
  }

  /** The viewer sees exactly the messages of the range that are not overtaken. */
  lemma VisibleIsKept(s: seq<Message>, b: nat, e: int, step: nat)
    ensures Visible(s, b, e, step) == Kept(s, |s|, b, e, step)
  {
    assert StandsAt(s, 0, b, b, e, step);
    ScanIsKept(s, 0, b, b, e, step);
    assert s[0..] == s;
    assert [] + Visible(s, b, e, step) == Visible(s, b, e, step);
  }

  lemma LaterWindow(b: nat, step: nat, t: nat, u: nat)
    requires b <= t <= u
    ensures WindowBegin(b, step, t) <= WindowBegin(b, step, u)
  {
    WindowOf(b, step, t);
    BeforeWindow(b, step, WindowBegin(b, step, t), u);
  }

  /** In a chronological file no message of the range is overtaken, whatever the window step. */
  lemma ChronologicalIsNotOvertaken(s: seq<Message>, i: nat, b: nat, e: int, step: nat)
    requires i < |s| && b <= s[i].time <= e && Chronological(s)
    ensures !Overtaken(s, i, b, e, step)
  {
    forall j: nat | j < i ensures !Blocks(s, j, WindowBegin(b, step, s[i].time), b, e, step) {
      if s[j].time >= b {
        LaterWindow(b, step, s[j].time, s[i].time);
      }
    }
  }

  lemma {:induction false} ChronologicalIsKept(s: seq<Message>, n: nat, b: nat, e: int, step: nat)
    requires n <= |s| && Chronological(s)
    ensures Kept(s, n, b, e, step) == InRange(s[..n], b, e)
    decreases n
  {
    if n > 0 {
      ChronologicalIsKept(s, n - 1, b, e, step);
      assert s[..n][..n - 1] == s[..n - 1];
      if b <= s[n - 1].time <= e {
        ChronologicalIsNotOvertaken(s, n - 1, b, e, step);
      }
    }
  }

  /** Of a chronological file the windows see the whole range, in file order. */
  lemma ChronologicalIsVisible(s: seq<Message>, b: nat, e: int, step: nat)
    requires Chronological(s)
    ensures Visible(s, b, e, step) == InRange(s, b, e)
  {
    VisibleIsKept(s, b, e, step);
    ChronologicalIsKept(s, |s|, b, e, step);
    assert s[..|s|] == s;
  }

  /** `Update` hands out the messages of the chosen channels; no channels means all of them. */
  predicate Chosen(channels: set<string>, m: Message) {
    channels == {} || m.channel in channels
  }

  function Choose(channels: set<string>, ms: seq<Message>): seq<Message>
    decreases |ms|
  {
    if ms == [] then []
    else
      var k := |ms| - 1;
      Choose(channels, ms[..k]) + if Chosen(channels, ms[k]) then [ms[k]] else []
  }

  lemma {:induction false} ChooseConcat(channels: set<string>, a: seq<Message>, b: seq<Message>)
    ensures Choose(channels, a + b) == Choose(channels, a) + Choose(channels, b)
    decreases |b|
  {
    if b == [] {
      assert a + b == a;
    } else {
      var k := |b| - 1;
      assert (a + b)[..|a + b| - 1] == a + b[..k];
      ChooseConcat(channels, a, b[..k]);
    }
  }

  /** No message of the range on a chosen channel, among the first `n`, is overtaken. */
  ghost predicate NoneLost(channels: set<string>, s: seq<Message>, n: nat, b: nat, e: int, step: nat)
    requires n <= |s|
  {
    forall i: nat {:trigger Overtaken(s, i, b, e, step)} ::
      i < n && Wanted(channels, s[i], b, e) ==> !Overtaken(s, i, b, e, step)
  }

  predicate Wanted(channels: set<string>, m: Message, b: nat, e: int) {
    b <= m.time <= e && Chosen(channels, m)
  }

  function ChosenKept(channels: set<string>, s: seq<Message>, n: nat, b: nat, e: int, step: nat): seq<Message>
    requires n <= |s|
  {
    Choose(channels, Kept(s, n, b, e, step))
  }

  function ChosenRange(channels: set<string>, s: seq<Message>, n: nat, b: nat, e: int): seq<Message>
    requires n <= |s|
  {
    Choose(channels, InRange(s[..n], b, e))
  }

  lemma ChosenKeptNext(channels: set<string>, s: seq<Message>, n: nat, b: nat, e: int, step: nat)
    requires n < |s|
    ensures ChosenKept(channels, s, n + 1, b, e, step) == ChosenKept(channels, s, n, b, e, step)
      + if Wanted(channels, s[n], b, e) && !Overtaken(s, n, b, e, step) then [s[n]] else []
  {
    KeptNext(s, n, b, e, step);
    ChooseConcat(channels, Kept(s, n, b, e, step), [s[n]]);
    assert ChosenKept(channels, s, n, b, e, step) + [] == ChosenKept(channels, s, n, b, e, step);
  }

  lemma ChosenRangeNext(channels: set<string>, s: seq<Message>, n: nat, b: nat, e: int)
    requires n < |s|
    ensures ChosenRange(channels, s, n + 1, b, e) == ChosenRange(channels, s, n, b, e)
      + if Wanted(channels, s[n], b, e) then [s[n]] else []
  {
    var t := s[..n + 1];
    assert t[..n] == s[..n] && t[n] == s[n];
    var r := InRange(s[..n], b, e);
    assert r + [] == r;
    ChooseConcat(channels, r, [s[n]]);
    assert Choose(channels, r) + [] == Choose(channels, r);
  }

  lemma NoneLostNext(channels: set<string>, s: seq<Message>, n: nat, b: nat, e: int, step: nat)
    requires n < |s|
    ensures NoneLost(channels, s, n + 1, b, e, step) <==>
      NoneLost(channels, s, n, b, e, step) && (Wanted(channels, s[n], b, e) ==> !Overtaken(s, n, b, e, step))
  {
    if NoneLost(channels, s, n, b, e, step) && (Wanted(channels, s[n], b, e) ==> !Overtaken(s, n, b, e, step)) {
      forall i: nat | i < n + 1 && Wanted(channels, s[i], b, e) ensures !Overtaken(s, i, b, e, step) {
        if i < n && Overtaken(s, i, b, e, step) {
          assert false;
        }
      }
    }
  }

  lemma NothingYet(channels: set<string>, s: seq<Message>, b: nat, e: int, step: nat)
    ensures ChosenKept(channels, s, 0, b, e, step) == [] && ChosenRange(channels, s, 0, b, e) == []
    ensures NoneLost(channels, s, 0, b, e, step)
  {
  }

  /** Losing a message makes what is kept shorter than the range, and never longer. */
  lemma {:induction false} KeptIsShorter(channels: set<string>, s: seq<Message>, n: nat, b: nat, e: int, step: nat)
    requires n <= |s|
    ensures |ChosenKept(channels, s, n, b, e, step)| <= |ChosenRange(channels, s, n, b, e)|
    ensures |ChosenKept(channels, s, n, b, e, step)| == |ChosenRange(channels, s, n, b, e)|
      <==> NoneLost(channels, s, n, b, e, step)
    decreases n
  {
    NothingYet(channels, s, b, e, step);
    hide *;
    if n > 0 {
      KeptIsShorter(channels, s, n - 1, b, e, step);
      ChosenKeptNext(channels, s, n - 1, b, e, step);
      ChosenRangeNext(channels, s, n - 1, b, e);
      NoneLostNext(channels, s, n - 1, b, e, step);
    }
  }

  lemma {:induction false} KeptIsPart(channels: set<string>, s: seq<Message>, n: nat, b: nat, e: int, step: nat)
    requires n <= |s|
    ensures multiset(ChosenKept(channels, s, n, b, e, step)) <= multiset(ChosenRange(channels, s, n, b, e))
    decreases n
  {
    NothingYet(channels, s, b, e, step);
    hide *;
    if n > 0 {
      KeptIsPart(channels, s, n - 1, b, e, step);
      ChosenKeptNext(channels, s, n - 1, b, e, step);
      ChosenRangeNext(channels, s, n - 1, b, e);
    }
  }

  /** What is kept is all of the range exactly if nothing chosen is overtaken. */
  lemma KeptOfRange(channels: set<string>, s: seq<Message>, b: nat, e: int, step: nat)
    ensures multiset(Choose(channels, Visible(s, b, e, step))) <= multiset(Choose(channels, InRange(s, b, e)))
    ensures multiset(Choose(channels, Visible(s, b, e, step))) == multiset(Choose(channels, InRange(s, b, e)))
      <==> NoneLost(channels, s, |s|, b, e, step)
  {
    VisibleIsKept(s, b, e, step);
    KeptIsShorter(channels, s, |s|, b, e, step);
    KeptIsPart(channels, s, |s|, b, e, step);
    assert s[..|s|] == s;
    SamePart(ChosenKept(channels, s, |s|, b, e, step), ChosenRange(channels, s, |s|, b, e));
  }

  lemma SamePart(a: seq<Message>, b: seq<Message>)
    requires multiset(a) <= multiset(b)
    ensures multiset(a) == multiset(b) <==> |a| == |b|
  {
    assert |multiset(a)| == |a| && |multiset(b)| == |b|;
    var d := multiset(b) - multiset(a);
    assert multiset(b) == multiset(a) + d;
    assert |d| == |b| - |a|;
    assert |d| == 0 <==> d == multiset{};
  }
}
