/** Channel state management and channel-id binding: the pause/continue
    state machine of a channel, and the tables of channel slots through
    which a channel id (cid) is looked up. */
module PscnvChan {
  import opened Util

  const EINVAL: int := 22
  const ENOSPC: int := 28
  const ENOSYS: int := 38
  const EALREADY: int := 114

  /** The slot of the DMA channel in the table of normal channels. */
  const PSCNV_DMA_CHAN: int := 126

  /** `enum pscnv_chan_state`, in the order of its enumerators 0..5. */
  datatype State = New | Initialized | Running | Pausing | Paused | Failed

  /** The enumerator value of a state. */
  function Code(st: State): (c: nat)
    ensures c < 6
  {
    match st
    case New => 0
    case Initialized => 1
    case Running => 2
    case Pausing => 3
    case Paused => 4
    case Failed => 5
  }

  /** `pscnv_chan_state_str` on the value of the enum: the name of a
      state, "UNKNOWN" for a value no enumerator has. */
  function StateStr(st: int): (name: string)
    ensures name == "UNKNOWN" <==> !(0 <= st < 6)
  {
    if st == 0 then "NEW"
    else if st == 1 then "INITIALIZED"
    else if st == 2 then "RUNNING"
    else if st == 3 then "PAUSING"
    else if st == 4 then "PAUSED"
    else if st == 5 then "FAILED"
    else "UNKNOWN"
  }

  /** Every state has a name of its own: no two states print alike, and
      none prints as "UNKNOWN". */
  lemma StateNamesDistinct(s: State, t: State)
    ensures StateStr(Code(s)) != "UNKNOWN"
    ensures StateStr(Code(s)) == StateStr(Code(t)) ==> s == t
  {
  }

  class Chan {
    /** The channel id; 0 while the channel is not bound. */
    var cid: int
    var state: State
    /** `pausing_threads`: how many callers asked for the pause. */
    var pausingThreads: int

    /** A channel as `kzalloc` leaves it: unbound, NEW, no pausing callers. */
    constructor ()
      ensures cid == 0 && state == New && pausingThreads == 0
    {
      cid := 0;
      state := New;
      pausingThreads := 0;
    }

    /** A pausing or paused channel has at least one caller waiting to
        continue it, and the count never goes negative. */
    ghost predicate Valid()
      reads this
    {
      pausingThreads >= 0 && ((state == Pausing || state == Paused) ==> pausingThreads >= 1)
    }

    /** `pscnv_chan_fail`: the channel becomes FAILED; a channel that
        already failed is left as it is. */
    method Fail()
      modifies this
      ensures state == Failed
      ensures cid == old(cid) && pausingThreads == old(pausingThreads)
      ensures old(state) == Failed ==> unchanged(this)
      ensures old(Valid()) ==> Valid()
    {
      if state == Failed {
        return;
      }
      state := Failed;
    }

    /** `pscnv_chan_pause`; whether the engine has a `do_chan_pause` hook,
        and what the hook returns, are parameters. A pausing or paused
        channel counts one more caller and gives -EALREADY; a channel in any
        other state but RUNNING gives -EINVAL; a running channel counts the
        caller, becomes PAUSING and gives the hook's result. */
    method Pause(hasHook: bool, hookResult: int) returns (r: int)
      modifies this
      ensures !hasHook ==> r == -ENOSYS && unchanged(this)
      ensures hasHook && (old(state) == Pausing || old(state) == Paused) ==>
        r == -EALREADY && state == old(state) && pausingThreads == old(pausingThreads) + 1
      ensures hasHook && old(state) !in {Running, Pausing, Paused} ==> r == -EINVAL && unchanged(this)
      ensures hasHook && old(state) == Running ==>
        r == hookResult && state == Pausing && pausingThreads == old(pausingThreads) + 1
      ensures cid == old(cid)
      ensures old(Valid()) ==> Valid()
    {
      if !hasHook {
        return -ENOSYS;
      }
      if state == Pausing || state == Paused {
        pausingThreads := pausingThreads + 1;
        return -EALREADY;
      }
      if state != Running {
        return -EINVAL;
      }
      pausingThreads := pausingThreads + 1;
      state := Pausing;
      r := hookResult;
    }

    /** What the `do_chan_pause` hook does once the channel has stopped: a
        PAUSING channel becomes PAUSED. */
    method PauseDone()
      requires state == Pausing
      modifies this
      ensures state == Paused && cid == old(cid) && pausingThreads == old(pausingThreads)
      ensures old(Valid()) ==> Valid()
    {
      state := Paused;
    }

    /** `pscnv_chan_continue`; the hook and its result are parameters as
        for `Pause`. Only a PAUSED channel can be continued. Each call drops
        one caller; the last one runs the hook, and the channel is RUNNING
        again if the hook succeeds and FAILED if it does not. */
    method Continue(hasHook: bool, hookResult: int) returns (res: int)
      modifies this
      ensures !hasHook ==> res == -ENOSYS && unchanged(this)
      ensures hasHook && old(state) != Paused ==> res == -EINVAL && unchanged(this)
      ensures hasHook && old(state) == Paused ==> pausingThreads == old(pausingThreads) - 1
      ensures hasHook && old(state) == Paused && old(pausingThreads) != 1 ==> res == 0 && state == Paused
      ensures hasHook && old(state) == Paused && old(pausingThreads) == 1 ==>
        res == hookResult && state == (if hookResult == 0 then Running else Failed)
      ensures cid == old(cid)
      ensures old(Valid()) ==> Valid()
    {
      if !hasHook {
        return -ENOSYS;
      }
      if state != Paused {
        return -EINVAL;
      }
      res := 0;
      pausingThreads := pausingThreads - 1;
      if pausingThreads == 0 {
        res := hookResult;
        if res == 0 {
          state := Running;
        }
      }
      if res != 0 {
        Fail();
      }
    }
  }

  /** The first empty slot of s from index i on, below hi. */
  function FirstEmpty(s: seq<Chan?>, i: int, hi: int): (r: Option<int>)
    requires 0 <= i && hi <= |s|
    ensures r.Some? ==> i <= r.value < hi && s[r.value] == null
    decreases hi - i
  {
    if i >= hi then None
    else if s[i] == null then Some(i)
    else FirstEmpty(s, i + 1, hi)
  }

  /** The slot found is the lowest empty one; none is found exactly when
      every slot in the range is taken. */
  lemma {:induction false} FirstEmptyLowest(s: seq<Chan?>, i: int, hi: int)
    requires 0 <= i && hi <= |s|
    ensures var r := FirstEmpty(s, i, hi);
      r.Some? ==> forall j :: i <= j < r.value ==> s[j] != null
    ensures FirstEmpty(s, i, hi).None? <==> forall j :: i <= j < hi ==> s[j] != null
    decreases hi - i
  {
    if i < hi && s[i] != null {
      FirstEmptyLowest(s, i + 1, hi);
    }
  }

  /** The channel tables of a device: 128 slots for normal channels and 4
      for the fake ones, with the lock that guards them. */
  class ChanTable {
    const chans: array<Chan?>
    const fakeChans: array<Chan?>
    /** The range of slots `bind` hands out to normal channels. */
    const chMin: int
    const chMax: int
    /** Whether `ch_lock` is held. */
    var locked: bool

    ghost predicate Valid()
      reads this
    {
      chans.Length == 128 && fakeChans.Length == 4 && 0 <= chMin && chMax < 128
    }

    constructor (chMin: int, chMax: int)
      requires 0 <= chMin && chMax < 128
      ensures Valid() && fresh(chans) && fresh(fakeChans) && !locked
      ensures this.chMin == chMin && this.chMax == chMax
      ensures forall i :: 0 <= i < 128 ==> chans[i] == null
      ensures forall i :: 0 <= i < 4 ==> fakeChans[i] == null
    {
      this.chMin := chMin;
      this.chMax := chMax;
      chans := new Chan?[128](_ => null);
      fakeChans := new Chan?[4](_ => null);
      locked := false;
    }

    /** `pscnv_chan_chid_lookup`: ids 0..127 name the normal slots, ids
        -3..-1 the fake slots 3..1; any other id names no channel. */
    function Lookup(chid: int): (ret: Chan?)
      requires Valid()
      reads this, chans, fakeChans
      ensures ret != null ==> -3 <= chid <= 127
      ensures 0 <= chid <= 127 ==> ret == chans[chid]
      ensures -3 <= chid < 0 ==> ret == fakeChans[-chid]
    {
      if 0 <= chid <= 127 then chans[chid]
      else if -3 <= chid < 0 then fakeChans[-chid]
      else null
    }

    /** The loop of `pscnv_chan_bind` for a normal channel: the lowest
        empty slot in [chMin, chMax], or -1. */
    method FindEmpty() returns (i: int)
      requires Valid()
      ensures var f := FirstEmpty(chans[..], chMin, chMax + 1);
        (i == -1 <==> f.None?) && (f.Some? ==> i == f.value)
    {
      i := chMin;
      while i <= chMax
        invariant chMin <= i && (i <= chMax + 1 || i == chMin)
        invariant FirstEmpty(chans[..], chMin, chMax + 1) == FirstEmpty(chans[..], i, chMax + 1)
        decreases chMax - i
      {
        if chans[i] == null {
          return;
        }
        i := i + 1;
      }
      i := -1;
    }

    /** `pscnv_chan_bind` as written. The DMA channel takes slot 126,
        unless it is taken: then the call gives -ENOSPC and returns with
        the lock still held. A normal channel (fake 0) takes the lowest
        empty slot in [chMin, chMax], or gets -ENOSPC. Fake channel 1..3
        takes fake slot fake and the id -fake. */
    method BindAsWritten(ch: Chan, fake: int) returns (r: int)
      requires Valid() && !locked && ch.cid == 0
      requires fake == PSCNV_DMA_CHAN || fake == 0 || (1 <= fake <= 3 && fakeChans[fake] == null)
      modifies this, chans, fakeChans, ch
      ensures ch.state == old(ch.state) && ch.pausingThreads == old(ch.pausingThreads)
      ensures fake == PSCNV_DMA_CHAN && old(chans[PSCNV_DMA_CHAN]) != null ==>
        r == -ENOSPC && locked && ch.cid == 0 &&
        chans[..] == old(chans[..]) && fakeChans[..] == old(fakeChans[..])
      ensures fake == PSCNV_DMA_CHAN && old(chans[PSCNV_DMA_CHAN]) == null ==>
        r == 0 && !locked && ch.cid == PSCNV_DMA_CHAN &&
        chans[..] == old(chans[..])[PSCNV_DMA_CHAN := ch] && fakeChans[..] == old(fakeChans[..])
      ensures fake == 0 ==> !locked && fakeChans[..] == old(fakeChans[..])
      ensures fake == 0 ==> var f := FirstEmpty(old(chans[..]), chMin, chMax + 1);
        (f.None? ==> r == -ENOSPC && ch.cid == 0 && chans[..] == old(chans[..])) &&
        (f.Some? ==> r == 0 && ch.cid == f.value && chans[..] == old(chans[..])[f.value := ch])
      ensures 1 <= fake <= 3 ==>
        r == 0 && !locked && ch.cid == -fake &&
        fakeChans[..] == old(fakeChans[..])[fake := ch] && chans[..] == old(chans[..])
      ensures r == 0 ==> ch.cid != 0 || chMin == 0
      ensures r == 0 ==> Lookup(ch.cid) == ch
    {
      locked := true;
      if fake == PSCNV_DMA_CHAN {
        if chans[PSCNV_DMA_CHAN] != null {
          return -ENOSPC;
        }
        ch.cid := fake;
        chans[fake] := ch;
        locked := false;
        return 0;
      } else if fake == 0 {
        var i := FindEmpty();
        if i >= 0 {
          ch.cid := i;
          chans[i] := ch;
          locked := false;
          return 0;
        }
        locked := false;
        return -ENOSPC;
      } else {
        ch.cid := -fake;
        fakeChans[fake] := ch;
        locked := false;
        return 0;
      }
    }

    /** `pscnv_chan_bind` with the lock released on the early -ENOSPC
        return as well: whatever it returns, the lock is free again, so a
        clash on the DMA slot no longer blocks every later bind. */
    method Bind(ch: Chan, fake: int) returns (r: int)
      requires Valid() && !locked && ch.cid == 0
      requires fake == PSCNV_DMA_CHAN || fake == 0 || (1 <= fake <= 3 && fakeChans[fake] == null)
      modifies this, chans, fakeChans, ch
      ensures !locked
      ensures ch.state == old(ch.state) && ch.pausingThreads == old(ch.pausingThreads)
      ensures fake == PSCNV_DMA_CHAN && old(chans[PSCNV_DMA_CHAN]) != null ==>
        r == -ENOSPC && ch.cid == 0 && chans[..] == old(chans[..]) && fakeChans[..] == old(fakeChans[..])
      ensures fake == PSCNV_DMA_CHAN && old(chans[PSCNV_DMA_CHAN]) == null ==>
        r == 0 && ch.cid == PSCNV_DMA_CHAN &&
        chans[..] == old(chans[..])[PSCNV_DMA_CHAN := ch] && fakeChans[..] == old(fakeChans[..])
      ensures fake == 0 ==> fakeChans[..] == old(fakeChans[..])
      ensures fake == 0 ==> var f := FirstEmpty(old(chans[..]), chMin, chMax + 1);
        (f.None? ==> r == -ENOSPC && ch.cid == 0 && chans[..] == old(chans[..])) &&
        (f.Some? ==> r == 0 && ch.cid == f.value && chans[..] == old(chans[..])[f.value := ch])
      ensures 1 <= fake <= 3 ==>
        r == 0 && ch.cid == -fake &&
        fakeChans[..] == old(fakeChans[..])[fake := ch] && chans[..] == old(chans[..])
      ensures r == 0 ==> Lookup(ch.cid) == ch
    {
      r := BindAsWritten(ch, fake);
      locked := false;
    }

    /** `pscnv_chan_unbind`: the channel's slot is emptied and its id
        reset to 0. The channel must be the one in the slot its id names. */
    method Unbind(ch: Chan)
      requires Valid() && !locked
      requires ch.cid < 0 ==> -ch.cid < 4 && fakeChans[-ch.cid] == ch
      requires ch.cid >= 0 ==> ch.cid < 128 && chans[ch.cid] == ch
      modifies this, chans, fakeChans, ch
      ensures !locked && ch.cid == 0
      ensures ch.state == old(ch.state) && ch.pausingThreads == old(ch.pausingThreads)
      ensures old(ch.cid) < 0 ==>
        fakeChans[..] == old(fakeChans[..])[-old(ch.cid) := null] && chans[..] == old(chans[..])
      ensures old(ch.cid) >= 0 ==>
        chans[..] == old(chans[..])[old(ch.cid) := null] && fakeChans[..] == old(fakeChans[..])
      ensures Lookup(old(ch.cid)) == null
    {
      locked := true;
      if ch.cid < 0 {
        fakeChans[-ch.cid] := null;
      } else {
        chans[ch.cid] := null;
      }
      ch.cid := 0;
      locked := false;
    }

    /** Binding a channel and unbinding it again leaves the tables and the
        channel as they were. */
    method BindUnbindRestores(ch: Chan, fake: int) returns (r: int)
      requires Valid() && !locked && ch.cid == 0
      requires fake == PSCNV_DMA_CHAN || fake == 0 || (1 <= fake <= 3 && fakeChans[fake] == null)
      modifies this, chans, fakeChans, ch
      ensures !locked && ch.cid == 0
      ensures chans[..] == old(chans[..]) && fakeChans[..] == old(fakeChans[..])
    {
      r := Bind(ch, fake);
      if r == 0 {
        Unbind(ch);
      }
    }
  }
}
