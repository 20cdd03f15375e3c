/**
  What the header of a file adds to the scan of its windows: a window that does not meet the header's
  times reads nothing.  Headers that cover their messages shut out none of them; others, which a
  closed recording can have, do.  What a file shows is then what the scan lets through and the
  header does not shut out, window by window.
*/
module HeaderGate {
  import opened Overtaking
  import opened RecordFormat
  import opened WindowScan

  /** The messages that a file still holds, and the times of its header. */
  datatype Source = Source(messages: seq<Message>, beginTime: nat, endTime: nat)

  ghost predicate Covers(src: Source) {
    Within(src.messages, src.beginTime, src.endTime)
  }

  /** The end of the window that begins at `b`: the last window is cut. */
  function WindowEnd(b: nat, e: nat, step: nat): nat {
    if b + step > e then e else b + step
  }

  /** The window of time `t` meets the header's times. */
  predicate Passes(src: Source, b: nat, e: nat, step: nat, t: nat) {
    b <= t &&
    var w := WindowBegin(b, step, t);
    Meets(src.beginTime, src.endTime, w, WindowEnd(w, e, step))
  }

  /** The messages whose own windows meet the header's times. */
  function Through(src: Source, ms: seq<Message>, b: nat, e: nat, step: nat): seq<Message>
    decreases |ms|
  {
    if ms == [] then [] else
      Through(src, ms[..|ms| - 1], b, e, step) +
      if Passes(src, b, e, step, ms[|ms| - 1].time) then [ms[|ms| - 1]] else []
  }

  /** What all windows from the one that begins at `b` take from the file. */
  function Shown(src: Source, b: nat, e: nat, step: nat): seq<Message> {
    Through(src, Visible(src.messages, b, e, step), b, e, step)
  }

  /** What the one window [b, h] takes. */
  function TakenBy(src: Source, b: nat, h: nat): seq<Message> {
    if Meets(src.beginTime, src.endTime, b, h) then Taken(src.messages, b, h) else []
  }

  /** What it leaves behind. */
  function LeftBy(src: Source, b: nat, h: nat): Source {
    if Meets(src.beginTime, src.endTime, b, h) then src.(messages := Left(src.messages, b, h)) else src
  }

  lemma {:induction false} ThroughConcat(src: Source, x: seq<Message>, y: seq<Message>, b: nat, e: nat, step: nat)
    ensures Through(src, x + y, b, e, step) == Through(src, x, b, e, step) + Through(src, y, b, e, step)
    decreases |y|
  {
    if y == [] {
      assert x + y == x;
    } else {
      var k := |y| - 1;
      assert (x + y)[..|x + y| - 1] == x + y[..k];
      ThroughConcat(src, x, y[..k], b, e, step);
    }
  }

  lemma {:induction false} ThroughAllOrNone(src: Source, ms: seq<Message>, b: nat, e: nat, step: nat)
    ensures (forall m :: m in ms ==> Passes(src, b, e, step, m.time)) ==> Through(src, ms, b, e, step) == ms
    ensures (forall m :: m in ms ==> !Passes(src, b, e, step, m.time)) ==> Through(src, ms, b, e, step) == []
    decreases |ms|
  {
    if ms != [] {
      var k := |ms| - 1;
      assert ms == ms[..k] + [ms[k]] && ms[k] in ms;
      ThroughAllOrNone(src, ms[..k], b, e, step);
    }
  }

  lemma {:induction false} ThroughSame(src: Source, src': Source, ms: seq<Message>, b: nat, b': nat, e: nat, step: nat)
    requires forall m :: m in ms ==> (Passes(src, b, e, step, m.time) <==> Passes(src', b', e, step, m.time))
    ensures Through(src, ms, b, e, step) == Through(src', ms, b', e, step)
    decreases |ms|
  {
    if ms != [] {
      var k := |ms| - 1;
      assert ms == ms[..k] + [ms[k]] && ms[k] in ms;
      ThroughSame(src, src', ms[..k], b, b', e, step);
    }
  }

  /** A scan that starts at the next window sees of the file what the window leaves. */
  lemma {:induction false} VisibleFromNext(s: seq<Message>, b: nat, h: nat, e: nat, step: nat)
    requires b <= h <= e
    ensures Visible(Left(s, b, h), h + 1, e, step) == Visible(s, h + 1, e, step)
  {
    if s != [] && s[0].time <= h {
      VisibleFromNext(s[1..], b, h, e, step);
    }
  }

  lemma PassesInWindow(src: Source, b: nat, e: nat, step: nat, t: nat)
    requires b <= e && b <= t <= WindowEnd(b, e, step)
    ensures Passes(src, b, e, step, t) <==> Meets(src.beginTime, src.endTime, b, WindowEnd(b, e, step))
  {
  }

  lemma PassesLater(src: Source, b: nat, e: nat, step: nat, t: nat)
    requires b <= e && WindowEnd(b, e, step) < t <= e
    ensures Passes(src, b, e, step, t) <==> Passes(src, WindowEnd(b, e, step) + 1, e, step, t)
  {
  }

  /** One window and then the rest. */
  lemma ShownByWindow(src: Source, b: nat, e: nat, step: nat)
    requires b <= e
    ensures var h := WindowEnd(b, e, step);
      Shown(src, b, e, step) == TakenBy(src, b, h) + Shown(LeftBy(src, b, h), h + 1, e, step)
  {
    hide Through, Visible, Left, Taken, Passes;
    var h, s := WindowEnd(b, e, step), src.messages;
    var now, later := Taken(s, b, h), Visible(Left(s, b, h), h + 1, e, step);
    VisibleByWindow(s, b, e, step);
    VisibleFromNext(s, b, h, e, step);
    ThroughConcat(src, now, later, b, e, step);
    TakenInWindow(s, b, h);
    forall m | m in now
      ensures Passes(src, b, e, step, m.time) <==> Meets(src.beginTime, src.endTime, b, h)
    {
      PassesInWindow(src, b, e, step, m.time);
    }
    ThroughAllOrNone(src, now, b, e, step);
    VisibleInRange(Left(s, b, h), h + 1, e, step);
    forall m | m in later
      ensures Passes(src, b, e, step, m.time) <==> Passes(LeftBy(src, b, h), h + 1, e, step, m.time)
    {
      PassesLater(src, b, e, step, m.time);
      PassesSame(src, LeftBy(src, b, h), h + 1, e, step, m.time);
    }
    ThroughSame(src, LeftBy(src, b, h), later, b, h + 1, e, step);
  }

  lemma PassesSame(src: Source, src': Source, b: nat, e: nat, step: nat, t: nat)
    requires src'.beginTime == src.beginTime && src'.endTime == src.endTime
    ensures Passes(src, b, e, step, t) <==> Passes(src', b, e, step, t)
  {
  }

  lemma ShownSame(src: Source, src': Source, b: nat, e: nat, step: nat)
    requires src'.beginTime == src.beginTime && src'.endTime == src.endTime
    requires Visible(src'.messages, b, e, step) == Visible(src.messages, b, e, step)
    ensures Shown(src', b, e, step) == Shown(src, b, e, step)
  {
    ThroughSame(src, src', Visible(src.messages, b, e, step), b, b, e, step);
  }

  /** Behind the header's end, and behind the range, nothing is shown. */
  lemma NothingShown(src: Source, b: nat, e: nat, step: nat)
    requires src.endTime < b || b > e || src.messages == []
    ensures Shown(src, b, e, step) == []
  {
    if src.endTime < b {
      ThroughAllOrNone(src, Visible(src.messages, b, e, step), b, e, step);
    } else {
      NothingAfterEnd(src.messages, b, e, step);
    }
  }

  /** A header that covers its messages shuts out none that the windows see. */
  lemma CoveredIsShown(src: Source, b: nat, e: nat, step: nat)
    requires Covers(src)
    ensures Shown(src, b, e, step) == Visible(src.messages, b, e, step)
  {
    var visible := Visible(src.messages, b, e, step);
    VisibleInRange(src.messages, b, e, step);
    forall m | m in visible ensures Passes(src, b, e, step, m.time) {
      CoveredPasses(src, b, e, step, m);
    }
    ThroughAllOrNone(src, visible, b, e, step);
  }

  lemma CoveredPasses(src: Source, b: nat, e: nat, step: nat, m: Message)
    requires Covers(src) && m in src.messages && b <= m.time <= e
    ensures Passes(src, b, e, step, m.time)
  {
  }

  // ---------------------------------------------------------------- how much is shown

  /** The messages that satisfy `keep`, in order. */
  function Sift(ms: seq<Message>, keep: Message -> bool): seq<Message>
    decreases |ms|
  {
    if ms == [] then [] else
      Sift(ms[..|ms| - 1], keep) + if keep(ms[|ms| - 1]) then [ms[|ms| - 1]] else []
  }

  /** A stricter filter keeps part of the messages, and all of them exactly if it refuses none that matter. */
  lemma {:induction false} SiftPart(ms: seq<Message>, strict: Message -> bool, loose: Message -> bool)
    requires forall m :: m in ms && strict(m) ==> loose(m)
    ensures multiset(Sift(ms, strict)) <= multiset(Sift(ms, loose)) && |Sift(ms, strict)| <= |Sift(ms, loose)|
    ensures |Sift(ms, strict)| == |Sift(ms, loose)| <==> forall m :: m in ms && loose(m) ==> strict(m)
    decreases |ms|
  {
    if ms != [] {
      var k := |ms| - 1;
      assert ms == ms[..k] + [ms[k]] && ms[k] in ms;
      SiftPart(ms[..k], strict, loose);
    }
  }

  lemma SiftsAgreeIff(ms: seq<Message>, strict: Message -> bool, loose: Message -> bool)
    requires forall m :: m in ms && strict(m) ==> loose(m)
    ensures multiset(Sift(ms, strict)) <= multiset(Sift(ms, loose))
    ensures multiset(Sift(ms, strict)) == multiset(Sift(ms, loose)) <==> forall m :: m in ms && loose(m) ==> strict(m)
  {
    SiftPart(ms, strict, loose);
    SamePart(Sift(ms, strict), Sift(ms, loose));
  }

  lemma {:induction false} ChosenOfRange(channels: set<string>, s: seq<Message>, b: nat, e: nat)
    ensures Choose(channels, InRange(s, b, e)) == Sift(s, (m: Message) => Wanted(channels, m, b, e))
    ensures Choose(channels, s) == Sift(s, (m: Message) => Chosen(channels, m))
    decreases |s|
  {
    if s != [] {
      var k := |s| - 1;
      ChosenOfRange(channels, s[..k], b, e);
      ChooseConcat(channels, InRange(s[..k], b, e), [s[k]]);
      assert InRange(s[..k], b, e) + [] == InRange(s[..k], b, e);
    }
  }

  lemma {:induction false} ChosenThrough(channels: set<string>, src: Source, s: seq<Message>, b: nat, e: nat, step: nat)
    ensures Choose(channels, Through(src, s, b, e, step))
      == Sift(s, (m: Message) => Passes(src, b, e, step, m.time) && Chosen(channels, m))
    decreases |s|
  {
    if s != [] {
      var k := |s| - 1;
      ChosenThrough(channels, src, s[..k], b, e, step);
      var front := Through(src, s[..k], b, e, step);
      ChooseConcat(channels, front, [s[k]]);
      assert front + [] == front;
    }
  }

  lemma {:induction false} SiftMembers(ms: seq<Message>, keep: Message -> bool)
    ensures forall m :: m in Sift(ms, keep) <==> m in ms && keep(m)
    decreases |ms|
  {
    if ms != [] {
      var k := |ms| - 1;
      assert ms == ms[..k] + [ms[k]];
      SiftMembers(ms[..k], keep);
    }
  }

  /** No wanted message of the file is in a window that does not meet the header's times. */
  ghost predicate NoneShut(channels: set<string>, src: Source, b: nat, e: nat, step: nat) {
    forall m {:trigger m in src.messages} ::
      m in src.messages && Wanted(channels, m, b, e) ==> Passes(src, b, e, step, m.time)
  }

  /** The range [b, e] leaves out no wanted message of the range [asked, until]. */
  ghost predicate NoneCut(channels: set<string>, src: Source, b: nat, e: nat, asked: nat, until: nat) {
    forall m {:trigger m in src.messages} :: m in src.messages && Wanted(channels, m, asked, until) ==> b <= m.time <= e
  }

  /** What is shown is part of the range, and all of it exactly if nothing wanted is overtaken or shut out. */
  lemma ShownOfRange(channels: set<string>, src: Source, b: nat, e: nat, step: nat)
    ensures multiset(Choose(channels, Shown(src, b, e, step))) <= multiset(Choose(channels, InRange(src.messages, b, e)))
    ensures multiset(Choose(channels, Shown(src, b, e, step))) == multiset(Choose(channels, InRange(src.messages, b, e)))
      <==> NoneLost(channels, src.messages, |src.messages|, b, e, step) && NoneShut(channels, src, b, e, step)
  {
    hide Visible, InRange, Choose, Through, Sift, Passes, NoneLost, Chosen, Wanted;
    var s, visible := src.messages, Visible(src.messages, b, e, step);
    var passing: Message -> bool := (m: Message) => Passes(src, b, e, step, m.time) && Chosen(channels, m);
    var chosen: Message -> bool := (m: Message) => Chosen(channels, m);
    ChosenThrough(channels, src, visible, b, e, step);
    ChosenOfRange(channels, visible, b, e);
    SiftsAgreeIff(visible, passing, chosen);
    KeptOfRange(channels, s, b, e, step);
    if NoneLost(channels, s, |s|, b, e, step) {
      SameChosen(channels, s, visible, b, e);
    }
  }

  /** If the visible messages are all of the range, the chosen ones among them are the wanted ones. */
  lemma SameChosen(channels: set<string>, s: seq<Message>, visible: seq<Message>, b: nat, e: nat)
    requires multiset(Choose(channels, visible)) == multiset(Choose(channels, InRange(s, b, e)))
    ensures forall m :: m in visible && Chosen(channels, m) <==> m in s && Wanted(channels, m, b, e)
  {
    hide InRange, Choose, Sift;
    ChosenOfRange(channels, s, b, e);
    ChosenOfRange(channels, visible, b, e);
    SiftMembers(s, (m: Message) => Wanted(channels, m, b, e));
    SiftMembers(visible, (m: Message) => Chosen(channels, m));
    var x, y := Choose(channels, visible), Choose(channels, InRange(s, b, e));
    forall m ensures m in x <==> m in y {
      assert m in multiset(x) <==> m in multiset(y);
    }
  }

  /** Cutting the range loses part of it, and nothing exactly if nothing wanted lies outside. */
  lemma CutOfRange(channels: set<string>, src: Source, b: nat, e: nat, asked: nat, until: nat)
    requires asked <= b && e <= until
    ensures multiset(Choose(channels, InRange(src.messages, b, e)))
      <= multiset(Choose(channels, InRange(src.messages, asked, until)))
    ensures multiset(Choose(channels, InRange(src.messages, b, e)))
        == multiset(Choose(channels, InRange(src.messages, asked, until)))
      <==> NoneCut(channels, src, b, e, asked, until)
  {
    hide InRange, Choose, Sift;
    var s := src.messages;
    var cut: Message -> bool := (m: Message) => Wanted(channels, m, b, e);
    var all: Message -> bool := (m: Message) => Wanted(channels, m, asked, until);
    ChosenOfRange(channels, s, b, e);
    ChosenOfRange(channels, s, asked, until);
    SiftsAgreeIff(s, cut, all);
  }
}
