/**
 * WaitAndClickController: wait_and_click (base.py:255-314) polls the best
 * match on fresh captures until a match is found or the timeout has passed,
 * and clicks once at the match centre plus an offset.
 *
 * Time is abstract. `elapsed[i]` is the value of time.time() - start_time read
 * by the i-th evaluation of the loop guard, and `captures[i]` is the frame
 * captured by the i-th poll. Only the order of these readings matters to the
 * loop, so the wall clock, the sleeps and the capture backend are inputs.
 */
module WaitAndClickController {
  import opened Imaging
  import opened TemplateMatcher
  import opened Locator

  /** The remote device; the model records the clicks it is sent. */
  class Device {
    var clicks: seq<Point>

    constructor ()
      ensures clicks == []
    {
      clicks := [];
    }

    method Click(at: Point)
      modifies this
      ensures clicks == old(clicks) + [at]
    {
      clicks := clicks + [at];
    }
  }

  /**
   * How a wait ends, with the number of polls made: a click at a point
   * (returns True), the timeout (returns False), or a negative check
   * interval, which the sleep call rejects by raising after the first
   * unsuccessful poll.
   */
  datatype WaitResult =
    | Clicked(at: Point, polls: nat)
    | TimedOut(polls: nat)
    | SleepRejected(polls: nat)

  /** The clock readings end with one at or past the timeout (a real clock always gets there). */
  predicate ClockRunsOut(elapsed: seq<real>, timeout: real)
  {
    |elapsed| > 0 && elapsed[|elapsed| - 1] >= timeout
  }

  /**
   * The outcome of the loop from its i-th guard evaluation on, given the
   * poll results (the best match of each capture).
   */
  function Wait(polls: seq<Option<Point>>, elapsed: seq<real>, timeout: real, checkInterval: real,
                offset: Point, i: nat): (r: WaitResult)
    requires ClockRunsOut(elapsed, timeout) && i < |elapsed| && |polls| >= |elapsed| - 1
    ensures i <= r.polls < |elapsed|
    ensures forall j :: i <= j < r.polls ==> elapsed[j] < timeout
    ensures forall j :: i <= j < r.polls - 1 ==> polls[j].None?
    ensures r.Clicked? ==> i < r.polls && polls[r.polls - 1].Some?
                           && r.at == Add(polls[r.polls - 1].value, offset)
    ensures r.TimedOut? ==> elapsed[r.polls] >= timeout && (i < r.polls ==> polls[r.polls - 1].None?)
    ensures r.SleepRejected? ==> checkInterval < 0.0 && r.polls == i + 1 && polls[i].None?
    ensures checkInterval < 0.0 ==> r.polls <= i + 1
    ensures r.TimedOut? && i < r.polls ==> checkInterval >= 0.0
    decreases |elapsed| - i
  {
    if elapsed[i] >= timeout then TimedOut(i)
    else if polls[i].Some? then Clicked(Add(polls[i].value, offset), i + 1)
    else if checkInterval < 0.0 then SleepRejected(i + 1)
    else Wait(polls, elapsed, timeout, checkInterval, offset, i + 1)
  }

  /** The best match of every capture, in capture order. */
  function Polls(captures: seq<Option<Image>>, tmpl: Option<Image>, threshold: real,
                 corr: Correlation): (ps: seq<Option<Point>>)
    requires forall i :: 0 <= i < |captures| ==> Loaded(captures[i])
    requires Loaded(tmpl)
    ensures |ps| == |captures|
    decreases |captures|
  {
    if |captures| == 0 then []
    else
      var last := |captures| - 1;
      Polls(captures[..last], tmpl, threshold, corr) + [FindImgCenter(captures[last], tmpl, threshold, corr)]
  }

  lemma {:induction false} PollAt(captures: seq<Option<Image>>, tmpl: Option<Image>, threshold: real,
                                  corr: Correlation, i: nat)
    requires forall i :: 0 <= i < |captures| ==> Loaded(captures[i])
    requires Loaded(tmpl) && i < |captures|
    ensures Polls(captures, tmpl, threshold, corr)[i] == FindImgCenter(captures[i], tmpl, threshold, corr)
    decreases |captures|
  {
    var last := |captures| - 1;
    var init := captures[..last];
    assert Polls(captures, tmpl, threshold, corr)
           == Polls(init, tmpl, threshold, corr) + [FindImgCenter(captures[last], tmpl, threshold, corr)];
    if i < last {
      PollAt(init, tmpl, threshold, corr, i);
      assert init[i] == captures[i];
    }
  }

  /**
   * wait_and_click: polls until a match or the timeout, clicking at most
   * once, exactly at the first match found plus the offset.
   */
  method WaitAndClick(device: Device, captures: seq<Option<Image>>, tmpl: Option<Image>,
                      timeout: real, checkInterval: real, threshold: real, clickOffset: Point,
                      corr: Correlation, elapsed: seq<real>) returns (result: WaitResult)
    requires forall i :: 0 <= i < |captures| ==> Loaded(captures[i])
    requires Loaded(tmpl)
    requires ClockRunsOut(elapsed, timeout) && |captures| >= |elapsed| - 1
    modifies device
    ensures result == Wait(Polls(captures, tmpl, threshold, corr), elapsed, timeout, checkInterval, clickOffset, 0)
    ensures device.clicks == old(device.clicks) + (if result.Clicked? then [result.at] else [])
  {
    ghost var polls := Polls(captures, tmpl, threshold, corr);
    var i := 0;
    while elapsed[i] < timeout
      invariant 0 <= i < |elapsed|
      invariant Wait(polls, elapsed, timeout, checkInterval, clickOffset, 0)
                == Wait(polls, elapsed, timeout, checkInterval, clickOffset, i)
      invariant device.clicks == old(device.clicks)
      decreases |elapsed| - i
    {
      var found := FindImgCenter(captures[i], tmpl, threshold, corr);
      PollAt(captures, tmpl, threshold, corr, i);
      if found.Some? {
        var clickAt := Point(found.value.x + clickOffset.x, found.value.y + clickOffset.y);
        device.Click(clickAt);
        return Clicked(clickAt, i + 1);
      }
      if checkInterval < 0.0 {
        return SleepRejected(i + 1);
      }
      i := i + 1;
    }
    return TimedOut(i);
  }

  /** With a non-positive timeout the loop is never entered: no poll, no click. */
  lemma NoPollWithoutTime(polls: seq<Option<Point>>, elapsed: seq<real>, timeout: real,
                          checkInterval: real, offset: Point)
    requires ClockRunsOut(elapsed, timeout) && |polls| >= |elapsed| - 1
    requires timeout <= 0.0 && elapsed[0] >= 0.0
    ensures Wait(polls, elapsed, timeout, checkInterval, offset, 0) == TimedOut(0)
  {
  }

  /**
   * The click lands on the first poll that found the template: every poll
   * before it failed, and all of them, it included, ran before the timeout.
   * (With a negative check interval only a match on the first poll gets there.)
   */
  lemma ClickAtFirstMatch(polls: seq<Option<Point>>, elapsed: seq<real>, timeout: real,
                          checkInterval: real, offset: Point, k: nat)
    requires ClockRunsOut(elapsed, timeout) && |polls| >= |elapsed| - 1
    requires k < |elapsed| - 1 && polls[k].Some?
    requires forall j :: 0 <= j <= k ==> elapsed[j] < timeout
    requires forall j :: 0 <= j < k ==> polls[j].None?
    requires k == 0 || checkInterval >= 0.0
    ensures Wait(polls, elapsed, timeout, checkInterval, offset, 0) == Clicked(Add(polls[k].value, offset), k + 1)
  {
    ClickAtFirstMatchFrom(polls, elapsed, timeout, checkInterval, offset, k, 0);
  }

  lemma {:induction false} ClickAtFirstMatchFrom(polls: seq<Option<Point>>, elapsed: seq<real>, timeout: real,
                                                 checkInterval: real, offset: Point, k: nat, i: nat)
    requires ClockRunsOut(elapsed, timeout) && |polls| >= |elapsed| - 1
    requires k < |elapsed| - 1 && polls[k].Some? && i <= k
    requires forall j :: i <= j <= k ==> elapsed[j] < timeout
    requires forall j :: i <= j < k ==> polls[j].None?
    requires i == k || checkInterval >= 0.0
    ensures Wait(polls, elapsed, timeout, checkInterval, offset, i) == Clicked(Add(polls[k].value, offset), k + 1)
    decreases k - i
  {
    if i < k {
      ClickAtFirstMatchFrom(polls, elapsed, timeout, checkInterval, offset, k, i + 1);
    }
  }

  /**
   * If every cycle takes at least the check interval, the polls made fit in
   * the timeout: the last poll started before it, (n - 1) intervals in.
   */
  lemma PollsWithinTimeout(polls: seq<Option<Point>>, elapsed: seq<real>, timeout: real,
                           checkInterval: real, offset: Point)
    requires ClockRunsOut(elapsed, timeout) && |polls| >= |elapsed| - 1
    requires forall j :: 0 <= j < |elapsed| ==> elapsed[j] >= (j as real) * checkInterval
    ensures var n := Wait(polls, elapsed, timeout, checkInterval, offset, 0).polls;
            n > 0 ==> ((n - 1) as real) * checkInterval < timeout
  {
    var n := Wait(polls, elapsed, timeout, checkInterval, offset, 0).polls;
    if n > 0 {
      assert elapsed[n - 1] < timeout;
    }
  }

  /**
   * If every cycle takes at most `cycle`, a wait that times out made at
   * least (timeout - elapsed[0]) / cycle polls, elapsed[0] being the time
   * already passed at the first guard check.
   */
  lemma TimeoutAfterEnoughPolls(polls: seq<Option<Point>>, elapsed: seq<real>, timeout: real,
                                checkInterval: real, offset: Point, cycle: real)
    requires ClockRunsOut(elapsed, timeout) && |polls| >= |elapsed| - 1
    requires forall j :: 0 <= j < |elapsed| ==> elapsed[j] <= elapsed[0] + (j as real) * cycle
    ensures var r := Wait(polls, elapsed, timeout, checkInterval, offset, 0);
            r.TimedOut? ==> (r.polls as real) * cycle >= timeout - elapsed[0]
  {
  }
}
