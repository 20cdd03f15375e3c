/**
  The windows of several files together: filling a sorted buffer window by window hands out the
  stable sort of everything the windows of the single files take.
*/
module WindowMerge {
  import opened HeaderGate
  import opened Overtaking
  import opened RecordFormat
  import opened TimeMerge
  import opened WindowScan

  /** What all windows from `b` on take from the files, one file after the other. */
  function AllShown(files: seq<Source>, b: nat, e: nat, step: nat): seq<Message> {
    if files == [] then []
    else AllShown(files[..|files| - 1], b, e, step) + Shown(files[|files| - 1], b, e, step)
  }

  /** What the one window [b, h] takes. */
  function AllTaken(files: seq<Source>, b: nat, h: nat): seq<Message> {
    if files == [] then []
    else AllTaken(files[..|files| - 1], b, h) + TakenBy(files[|files| - 1], b, h)
  }

  function AllInRange(files: seq<Source>, b: nat, e: nat): seq<Message> {
    if files == [] then []
    else AllInRange(files[..|files| - 1], b, e) + InRange(files[|files| - 1].messages, b, e)
  }

  /** `files'` is what is left of `files` once the window that begins at `b` is read. */
  ghost predicate WindowRead(files: seq<Source>, files': seq<Source>, b: nat, e: nat, step: nat) {
    && |files'| == |files|
    && forall i: nat {:trigger files'[i]} :: i < |files| ==> OneRead(files[i], files'[i], b, e, step)
  }

  /** The later windows take from `src'` what the window that begins at `b` leaves of `src`. */
  ghost predicate OneRead(src: Source, src': Source, b: nat, e: nat, step: nat) {
    var h := WindowEnd(b, e, step);
    Shown(src', h + 1, e, step) == Shown(LeftBy(src, b, h), h + 1, e, step)
  }

  lemma {:induction false} SplitAtWindow(files: seq<Source>, files': seq<Source>, b: nat, e: nat, step: nat)
    requires b <= e && WindowRead(files, files', b, e, step)
    ensures UpTo(AllShown(files, b, e, step), WindowEnd(b, e, step)) == AllTaken(files, b, WindowEnd(b, e, step))
    ensures After(AllShown(files, b, e, step), WindowEnd(b, e, step))
      == AllShown(files', WindowEnd(b, e, step) + 1, e, step)
    decreases |files|
  {
    if files != [] {
      var k, h := |files| - 1, WindowEnd(b, e, step);
      assert WindowRead(files[..k], files'[..k], b, e, step) by {
        assert forall i: nat {:trigger files'[..k][i]} :: i < k ==> files'[..k][i] == files'[i];
      }
      SplitAtWindow(files[..k], files'[..k], b, e, step);
      assert OneRead(files[k], files'[k], b, e, step);
      SplitOne(files[k], files'[k], b, e, step);
      UpToConcat(AllShown(files[..k], b, e, step), Shown(files[k], b, e, step), h);
      AfterConcat(AllShown(files[..k], b, e, step), Shown(files[k], b, e, step), h);
    }
  }

  lemma SplitOne(src: Source, src': Source, b: nat, e: nat, step: nat)
    requires b <= e && OneRead(src, src', b, e, step)
    ensures var h := WindowEnd(b, e, step);
      && UpTo(Shown(src, b, e, step), h) == TakenBy(src, b, h)
      && After(Shown(src, b, e, step), h) == Shown(src', h + 1, e, step)
  {
    hide Shown, TakenBy, LeftBy, UpTo, After;
    var h := WindowEnd(b, e, step);
    ShownByWindow(src, b, e, step);
    TakenByInWindow(src, b, h);
    ShownInRange(src', h + 1, e, step);
    SplitSum(TakenBy(src, b, h), Shown(src', h + 1, e, step), h);
  }

  lemma TakenByInWindow(src: Source, b: nat, h: nat)
    ensures forall m :: m in TakenBy(src, b, h) ==> b <= m.time <= h
  {
    TakenInWindow(src.messages, b, h);
  }

  lemma {:induction false} ThroughIsPart(src: Source, ms: seq<Message>, b: nat, e: nat, step: nat)
    ensures forall m :: m in Through(src, ms, b, e, step) ==> m in ms
    decreases |ms|
  {
    if ms != [] {
      ThroughIsPart(src, ms[..|ms| - 1], b, e, step);
    }
  }

  lemma ShownInRange(src: Source, b: nat, e: nat, step: nat)
    ensures forall m :: m in Shown(src, b, e, step) ==> m in src.messages && b <= m.time <= e
  {
    VisibleInRange(src.messages, b, e, step);
    ThroughIsPart(src, Visible(src.messages, b, e, step), b, e, step);
  }

  lemma SplitSum(now: seq<Message>, later: seq<Message>, h: int)
    requires (forall m :: m in now ==> m.time <= h) && forall m :: m in later ==> m.time > h
    ensures UpTo(now + later, h) == now && After(now + later, h) == later
  {
    UpToConcat(now, later, h);
    AfterConcat(now, later, h);
    AllUpTo(now, h);
    AllUpTo(later, h);
    assert now + [] == now && [] + later == later;
  }

  /** The sort of the rest is the sort of this window followed by the sort of the later ones. */
  lemma SortByWindow(files: seq<Source>, files': seq<Source>, b: nat, e: nat, step: nat)
    requires b <= e && WindowRead(files, files', b, e, step)
    ensures SortByTime(AllShown(files, b, e, step))
      == SortByTime(AllTaken(files, b, WindowEnd(b, e, step)))
       + SortByTime(AllShown(files', WindowEnd(b, e, step) + 1, e, step))
  {
    hide *;
    SplitAtWindow(files, files', b, e, step);
    SortSplits(AllShown(files, b, e, step), WindowEnd(b, e, step));
  }

  lemma {:induction false} AllTakenInWindow(files: seq<Source>, b: nat, h: nat)
    ensures forall m :: m in AllTaken(files, b, h) ==> b <= m.time <= h
    decreases |files|
  {
    if files != [] {
      AllTakenInWindow(files[..|files| - 1], b, h);
      TakenByInWindow(files[|files| - 1], b, h);
    }
  }

  lemma {:induction false} NothingShownAfterEnd(files: seq<Source>, b: nat, e: nat, step: nat)
    requires b > e
    ensures AllShown(files, b, e, step) == []
    decreases |files|
  {
    if files != [] {
      NothingShownAfterEnd(files[..|files| - 1], b, e, step);
      NothingShown(files[|files| - 1], b, e, step);
    }
  }

  /** What an iteration over the chosen channels hands out. */
  function Merged(channels: set<string>, files: seq<Source>, b: nat, e: nat, step: nat): seq<Message> {
    Choose(channels, SortByTime(AllShown(files, b, e, step)))
  }

  /** Chronological messages under a header that covers them. */
  ghost predicate InOrder(src: Source) {
    Chronological(src.messages) && Covers(src)
  }

  /** With files in order it is the sort of everything in the range, for every window step. */
  lemma {:induction false} ChronologicalMerge(files: seq<Source>, b: nat, e: nat, step: nat)
    requires forall i :: 0 <= i < |files| ==> InOrder(files[i])
    ensures AllShown(files, b, e, step) == AllInRange(files, b, e)
    decreases |files|
  {
    if files != [] {
      var src := files[|files| - 1];
      ChronologicalMerge(files[..|files| - 1], b, e, step);
      CoveredIsShown(src, b, e, step);
      ChronologicalIsVisible(src.messages, b, e, step);
    }
  }

  lemma {:induction false} ChooseKeepsOrder(channels: set<string>, ms: seq<Message>)
    requires Chronological(ms)
    ensures Chronological(Choose(channels, ms)) && forall m :: m in Choose(channels, ms) ==> m in ms
    decreases |ms|
  {
    if ms != [] {
      var k := |ms| - 1;
      ChooseKeepsOrder(channels, ms[..k]);
      assert ms == ms[..k] + [ms[k]];
      var r := Choose(channels, ms[..k]);
      forall i | 0 <= i < |r| ensures r[i].time <= ms[k].time {
        assert r[i] in ms[..k];
      }
    }
  }

  lemma {:induction false} ChooseOfSame(channels: set<string>, ms: seq<Message>, m: Message)
    ensures multiset(Choose(channels, ms))[m] == if Chosen(channels, m) then multiset(ms)[m] else 0
    decreases |ms|
  {
    if ms != [] {
      var k := |ms| - 1;
      ChooseOfSame(channels, ms[..k], m);
      assert ms == ms[..k] + [ms[k]];
    }
  }

  /** The output is in time order and holds the chosen messages that are shown, as often as the files. */
  lemma MergeIsSorted(channels: set<string>, files: seq<Source>, b: nat, e: nat, step: nat)
    ensures Chronological(Merged(channels, files, b, e, step))
    ensures multiset(Merged(channels, files, b, e, step))
      == multiset(Choose(channels, AllShown(files, b, e, step)))
  {
    var all := AllShown(files, b, e, step);
    SortIsSorted(all);
    ChooseKeepsOrder(channels, SortByTime(all));
    forall m ensures multiset(Choose(channels, SortByTime(all)))[m] == multiset(Choose(channels, all))[m] {
      ChooseOfSame(channels, SortByTime(all), m);
      ChooseOfSame(channels, all, m);
    }
  }

  /** Of what all channels hand out, `out` holds what is on the given ones, as often; no channels means all. */
  ghost predicate OfChannels(out: seq<Message>, channels: set<string>, all: seq<Message>) {
    && (forall m :: m in out ==> channels == {} || m.channel in channels)
    && (forall m :: multiset(out)[m] == if channels == {} || m.channel in channels then multiset(all)[m] else 0)
  }

  /**
    What the channel set does: every message handed out is on one of the channels, unless the set is
    empty, and each message that may be is handed out as often as an iteration over all channels hands
    it out; that is as often as the files show it.
  */
  lemma MergeOfChannels(channels: set<string>, files: seq<Source>, b: nat, e: nat, step: nat)
    ensures OfChannels(Merged(channels, files, b, e, step), channels, Merged({}, files, b, e, step))
    ensures multiset(Merged({}, files, b, e, step)) == multiset(AllShown(files, b, e, step))
  {
    hide Choose, SortByTime, AllShown;
    var all := AllShown(files, b, e, step);
    var out := Merged(channels, files, b, e, step);
    SortIsSorted(all);
    forall m: Message
      ensures multiset(out)[m]
        == (if channels == {} || m.channel in channels then multiset(Merged({}, files, b, e, step))[m] else 0)
      ensures multiset(Merged({}, files, b, e, step))[m] == multiset(all)[m]
    {
      ChooseOfSame(channels, SortByTime(all), m);
      ChooseOfSame({}, SortByTime(all), m);
    }
    forall m | m in out ensures channels == {} || m.channel in channels {
      assert multiset(out)[m] > 0;
    }
  }

  /**
    Nothing of the file is missing from the range [asked, until]: no wanted message is cut off by the
    range [b, e], overtaken in the file, or in a window that does not meet the header's times.
  */
  ghost predicate AllOf(channels: set<string>, src: Source, b: nat, e: nat, step: nat, asked: nat, until: nat) {
    && NoneCut(channels, src, b, e, asked, until)
    && NoneLost(channels, src.messages, |src.messages|, b, e, step)
    && NoneShut(channels, src, b, e, step)
  }

  lemma OneCompleteIff(channels: set<string>, src: Source, b: nat, e: nat, step: nat, asked: nat, until: nat)
    requires asked <= b && e <= until
    ensures multiset(Choose(channels, Shown(src, b, e, step)))
      <= multiset(Choose(channels, InRange(src.messages, asked, until)))
    ensures multiset(Choose(channels, Shown(src, b, e, step)))
        == multiset(Choose(channels, InRange(src.messages, asked, until)))
      <==> AllOf(channels, src, b, e, step, asked, until)
  {
    hide Choose, Shown, InRange, NoneCut, NoneLost, NoneShut;
    ShownOfRange(channels, src, b, e, step);
    CutOfRange(channels, src, b, e, asked, until);
  }

  ghost predicate NothingMissing(channels: set<string>, files: seq<Source>, b: nat, e: nat, step: nat,
                                 asked: nat, until: nat)
  {
    forall i: nat {:trigger files[i]} :: i < |files| ==> AllOf(channels, files[i], b, e, step, asked, until)
  }

  lemma {:induction false} CompleteIffNothingMissing(channels: set<string>, files: seq<Source>, b: nat, e: nat, step: nat,
                                                     asked: nat, until: nat)
    requires asked <= b && e <= until
    ensures multiset(Choose(channels, AllShown(files, b, e, step)))
      <= multiset(Choose(channels, AllInRange(files, asked, until)))
    ensures multiset(Choose(channels, AllShown(files, b, e, step)))
        == multiset(Choose(channels, AllInRange(files, asked, until)))
      <==> NothingMissing(channels, files, b, e, step, asked, until)
    decreases |files|
  {
    hide Choose, Shown, InRange, AllOf;
    if files != [] {
      var k := |files| - 1;
      CompleteIffNothingMissing(channels, files[..k], b, e, step, asked, until);
      OneCompleteIff(channels, files[k], b, e, step, asked, until);
      ChooseConcat(channels, AllShown(files[..k], b, e, step), Shown(files[k], b, e, step));
      ChooseConcat(channels, AllInRange(files[..k], asked, until), InRange(files[k].messages, asked, until));
      MissingInLastFile(channels, files, b, e, step, asked, until);
      SumOfParts(
        multiset(Choose(channels, AllShown(files[..k], b, e, step))),
        multiset(Choose(channels, AllInRange(files[..k], asked, until))),
        multiset(Choose(channels, Shown(files[k], b, e, step))),
        multiset(Choose(channels, InRange(files[k].messages, asked, until))));
    } else {
      ChooseNothing(channels);
    }
  }

  lemma ChooseNothing(channels: set<string>)
    ensures Choose(channels, []) == []
  {
  }

  lemma MissingInLastFile(channels: set<string>, files: seq<Source>, b: nat, e: nat, step: nat, asked: nat, until: nat)
    requires files != []
    ensures var k := |files| - 1; NothingMissing(channels, files, b, e, step, asked, until) <==>
      NothingMissing(channels, files[..k], b, e, step, asked, until) && AllOf(channels, files[k], b, e, step, asked, until)
  {
    hide AllOf;
    var k := |files| - 1;
    assert forall i: nat {:trigger files[..k][i]} :: i < k ==> files[..k][i] == files[i];
    assert forall i: nat {:trigger files[i]} :: i < k ==> files[..k][i] == files[i];
  }

  lemma SumOfParts(a: multiset<Message>, b: multiset<Message>, c: multiset<Message>, d: multiset<Message>)
    requires a <= b && c <= d
    ensures a + c <= b + d && (a + c == b + d <==> a == b && c == d)
  {
    if a + c == b + d {
      forall m ensures a[m] == b[m] && c[m] == d[m] {
        assert (a + c)[m] == (b + d)[m];
      }
    }
  }

  /**
    An iteration hands out all chosen messages of the asked range exactly if no file has one of them
    cut off, overtaken or shut out.
  */
  lemma MergeIsCompleteIff(channels: set<string>, files: seq<Source>, b: nat, e: nat, step: nat, asked: nat, until: nat)
    requires asked <= b && e <= until
    ensures multiset(Merged(channels, files, b, e, step)) == multiset(Choose(channels, AllInRange(files, asked, until)))
      <==> NothingMissing(channels, files, b, e, step, asked, until)
  {
    hide *;
    MergeIsSorted(channels, files, b, e, step);
    CompleteIffNothingMissing(channels, files, b, e, step, asked, until);
  }

  /** With files in order the window step does not show in the output. */
  lemma MergeOfChronologicalFiles(channels: set<string>, files: seq<Source>, b: nat, e: nat, step: nat)
    requires forall i :: 0 <= i < |files| ==> InOrder(files[i])
    ensures Merged(channels, files, b, e, step) == Choose(channels, SortByTime(AllInRange(files, b, e)))
  {
    ChronologicalMerge(files, b, e, step);
  }

  lemma ReversedIsVisible(late: Message, early: Message, step: nat)
    requires late.time == early.time + step + 1
    ensures Visible([late, early], early.time, late.time, step) == [late]
  {
    assert [late, early][1..] == [early];
    assert WindowBegin(early.time, step, late.time) == late.time;
    assert Visible([early], late.time, late.time, step) == [];
  }

  lemma MergeOfOne(src: Source, b: nat, e: nat, step: nat, m: Message)
    requires Shown(src, b, e, step) == [m]
    ensures Merged({}, [src], b, e, step) == [m]
  {
    hide Shown;
    var files := [src];
    assert files[..0] == [] && files[0] == src;
    assert AllShown(files[..0], b, e, step) == [];
    assert AllShown(files, b, e, step) == [m];
    SortOfSorted([m]);
    assert [m][..0] == [];
    assert Choose({}, [m]) == [m];
  }

  /** Two messages in reverse order, more than a window apart: only the later one is seen. */
  lemma ReverseOrderLosesMessages(c: string, x: string, y: string, b: nat, step: nat)
    ensures var late, early := Message(c, y, b + step + 1), Message(c, x, b);
      Merged({}, [Source([late, early], b, b + step + 1)], b, b + step + 1, step) == [late]
  {
    hide Shown, Merged, Visible;
    var late, early := Message(c, y, b + step + 1), Message(c, x, b);
    var src := Source([late, early], b, b + step + 1);
    ReversedIsVisible(late, early, step);
    CoveredIsShown(src, b, b + step + 1, step);
    MergeOfOne(src, b, b + step + 1, step, late);
  }
}
