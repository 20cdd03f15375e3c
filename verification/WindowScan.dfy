/**
  What the viewer sees of one file.  It asks the reader for one time window after the other, each
  one step long and closed at both ends; the reader keeps its place, skips messages before the
  window and stops at the first message behind it.  What a message meets depends on the place of
  the reader when its window comes, and so on the messages before it in the file.
*/
module WindowScan {
  import opened RecordFormat

  /** Drops the messages in front that are before time `b`. */
  function SkipBefore(s: seq<Message>, b: nat): seq<Message> {
    if s == [] || s[0].time >= b then s else SkipBefore(s[1..], b)
  }

  /** What one window [b, h] takes from the messages `s` that are left. */
  function Taken(s: seq<Message>, b: nat, h: nat): seq<Message> {
    if s == [] || s[0].time > h then []
    else (if s[0].time < b then [] else [s[0]]) + Taken(s[1..], b, h)
  }

  /** What it leaves behind, up to messages that no later window wants. */
  function Left(s: seq<Message>, b: nat, h: nat): seq<Message> {
    if s == [] || s[0].time > h then s else Left(s[1..], b, h)
  }

  /** The begin of the window of time `t`, for windows that begin at `b` and repeat every step + 1. */
  function WindowBegin(b: nat, step: nat, t: nat): (r: nat)
    requires b <= t
    ensures b <= r <= t <= r + step
    decreases t - b
  {
    if t <= b + step then b else WindowBegin(b + step + 1, step, t)
  }

  /**
    What all windows from the one that begins at `b` to the end `e` take: a message is taken in
    its own window unless an earlier one of the file made the reader wait for a later window.
  */
  function Visible(s: seq<Message>, b: nat, e: int, step: nat): seq<Message> {
    if s == [] || s[0].time > e then []
    else if s[0].time < b then Visible(s[1..], b, e, step)
    else [s[0]] + Visible(s[1..], WindowBegin(b, step, s[0].time), e, step)
  }

  lemma SkipKeepsScan(s: seq<Message>, b: nat, h: nat)
    requires b <= h
    ensures Taken(SkipBefore(s, b), b, h) == Taken(s, b, h)
    ensures Left(SkipBefore(s, b), b, h) == Left(s, b, h)
  {
    if s != [] && s[0].time < b {
      SkipKeepsScan(s[1..], b, h);
      assert [] + Taken(s[1..], b, h) == Taken(s[1..], b, h);
    }
  }

  /** Messages before the window do not count. */
  lemma {:induction false} SkipKeepsVisible(s: seq<Message>, b: nat, c: nat, e: int, step: nat)
    requires b <= c && b <= e + 1
    ensures Visible(SkipBefore(s, b), c, e, step) == Visible(s, c, e, step)
  {
    if s != [] && s[0].time < b {
      SkipKeepsVisible(s[1..], b, c, e, step);
    }
  }

  /** One window and then the rest: the last window is cut at the end. */
  lemma {:induction false} VisibleByWindow(s: seq<Message>, b: nat, e: nat, step: nat)
    requires b <= e
    ensures var h := if b + step > e then e else b + step;
      Visible(s, b, e, step) == Taken(s, b, h) + Visible(Left(s, b, h), h + 1, e, step)
  {
    var h := if b + step > e then e else b + step;
    if s == [] {
    } else if s[0].time > h {
      assert Taken(s, b, h) == [] && Left(s, b, h) == s;
    } else {
      VisibleByWindow(s[1..], b, e, step);
      var t, l := Taken(s[1..], b, h), Visible(Left(s[1..], b, h), h + 1, e, step);
      if s[0].time < b {
        assert [] + t == t;
      } else {
        assert [s[0]] + (t + l) == ([s[0]] + t) + l;
      }
    }
  }

  /** Nothing is visible once the windows are used up. */
  lemma {:induction false} NothingAfterEnd(s: seq<Message>, b: nat, e: int, step: nat)
    requires b > e || forall m :: m in s ==> m.time < b
    ensures Visible(s, b, e, step) == []
  {
    if s != [] {
      assert s[0] in s;
      assert forall m :: m in s[1..] ==> m in s;
      NothingAfterEnd(s[1..], b, e, step);
    }
  }

  lemma {:induction false} TakenInWindow(s: seq<Message>, b: nat, h: nat)
    ensures forall m :: m in Taken(s, b, h) ==> b <= m.time <= h
  {
    if s != [] {
      TakenInWindow(s[1..], b, h);
    }
  }

  lemma {:induction false} VisibleInRange(s: seq<Message>, b: nat, e: int, step: nat)
    ensures forall m :: m in Visible(s, b, e, step) ==> m in s && b <= m.time <= e
  {
    if s != [] {
      VisibleInRange(s[1..], b, e, step);
      if b <= s[0].time <= e {
        VisibleInRange(s[1..], WindowBegin(b, step, s[0].time), e, step);
      }
    }
  }
}
