/** The source list and peer slots of ntp/ntp.cpp: the GPS reference and at most eight
    remote peers, which name servers add and the selection task prunes. */
module Sources {
  import opened Words

  const MAX_NTP_SRCS := 9
  const REF_ID: word := 0x0053_5047
  const MAX_FREQ_SKEW := 0.00005

  datatype Mode = Client | Reference
  datatype Status = Selected | NonSelectable | FalseTicker | Jittery | Unselected | Selectable

  /** What the list depends on in a slot. */
  datatype Info = Info(id: word, prune: bool, fit: bool, score: real)

  /** The samples and the skew are good enough. */
  predicate FitBy(lost: bool, reach: nat, usedOffset: nat, usedDrift: nat, freqSkew: real) {
    reach != 0 && !lost && usedOffset >= 8 && usedDrift >= 4 && freqSkew <= MAX_FREQ_SKEW
  }

  /** ntp::Source, as the source list sees it. A slot with identity zero is free. */
  class Source {
    var id: word
    var mode: Mode
    var prune: bool
    var lost: bool
    var reach: nat
    var usedOffset: nat
    var usedDrift: nat
    var freqSkew: real
    var score: real
    var state: Status

    /** A slot of the zeroed pool. */
    constructor ()
      ensures id == 0 && mode == Client
    {
      id := 0;
      mode := Client;
      prune, lost, reach, usedOffset, usedDrift, freqSkew, score := false, false, 0, 0, 0, 0.0, 0.0;
      state := Selected;
    }

    /** The constructor of ntp::Source, run in place. */
    method Construct(id: word, mode: Mode)
      modifies this
      ensures this.id == id && this.mode == mode && Tells() == Info(id, false, false, 0.0)
    {
      this.id, this.mode := id, mode;
      prune, lost, reach, usedOffset, usedDrift, freqSkew, score := false, true, 0, 0, 0, 0.0, 0.0;
      state := Unselected;
    }

    /** What a source's own tasks change. */
    method Change(prune: bool, lost: bool, reach: nat, used: (nat, nat), skew: real, score: real)
      modifies `prune, `lost, `reach, `usedOffset, `usedDrift, `freqSkew, `score
      ensures Tells() == Info(id, prune, FitBy(lost, reach, used.0, used.1, skew), score)
    {
      this.prune, this.lost, this.reach, freqSkew, this.score := prune, lost, reach, skew, score;
      usedOffset, usedDrift := used.0, used.1;
    }

    /** The destructor of ntp::Source. */
    method Destroy()
      modifies `id, `mode
      ensures id == 0 && mode == Client && Tells() == old(Tells()).(id := 0)
    {
      mode := Client;
      id := 0;
    }

    predicate IsAllocated()
      reads `id
    {
      id != 0
    }

    predicate IsRecipient(srcAddr: word)
      reads `id, `mode
    {
      mode == Client && id == srcAddr
    }

    predicate IsPruneable()
      reads `mode, `prune
    {
      mode != Reference && prune
    }

    /** The source may be synchronized to. */
    predicate Fit()
      reads `reach, `lost, `usedOffset, `usedDrift, `freqSkew
    {
      FitBy(lost, reach, usedOffset, usedDrift, freqSkew)
    }

    ghost function Tells(): Info
      reads `id, `prune, `reach, `lost, `usedOffset, `usedDrift, `freqSkew, `score
    {
      Info(id, prune, Fit(), score)
    }

    /** The state reported: what the source lacks first, in the order link, samples,
        steadiness. */
    ghost predicate Judged()
      reads this
    {
      && (state == NonSelectable <==> reach == 0 || lost)
      && (state == FalseTicker <==> reach != 0 && !lost && (usedOffset < 8 || usedDrift < 4))
      && (state == Jittery <==>
          reach != 0 && !lost && usedOffset >= 8 && usedDrift >= 4 && freqSkew > MAX_FREQ_SKEW)
      && (state == Selectable <==> Fit())
    }

    /** select() */
    method Select()
      modifies `state
      ensures state == Selected
    {
      state := Selected;
    }

    /** isSelectable() */
    method IsSelectable() returns (b: bool)
      modifies `state
      ensures b == Fit() && Judged()
    {
      if reach == 0 || lost {
        state := NonSelectable;
        return false;
      }
      if usedOffset < 8 || usedDrift < 4 {
        state := FalseTicker;
        return false;
      }
      if freqSkew > MAX_FREQ_SKEW {
        state := Jittery;
        return false;
      }
      state := Selectable;
      return true;
    }
  }

  // ----- the list on values

  /** Of slots named 0 to 8, these are distinct. */
  predicate Distinct<T(==)>(list: seq<T>) {
    forall i, j :: 0 <= i < j < |list| ==> list[i] != list[j]
  }

  function Elements<T>(list: seq<T>): set<T> {
    set x | x in list
  }

  lemma {:induction false} DistinctCount<T>(list: seq<T>)
    requires Distinct(list)
    ensures |Elements(list)| == |list|
  {
    if list != [] {
      var n := |list| - 1;
      DistinctCount(list[..n]);
      assert Elements(list) == Elements(list[..n]) + {list[n]};
    }
  }

  /** With room in the list there is a slot that is not listed. */
  lemma RoomMeansFreeSlot<T>(list: seq<T>, slots: seq<T>)
    requires Distinct(list) && Distinct(slots) && |list| < |slots|
    ensures exists k :: 0 <= k < |slots| && slots[k] !in list
  {
    DistinctCount(list);
    DistinctCount(slots);
    if forall k :: 0 <= k < |slots| ==> slots[k] in list {
      SubsetSize(Elements(slots), Elements(list));
      assert false;
    }
  }

  lemma {:induction false} SubsetSize<T>(a: set<T>, b: set<T>)
    requires a <= b
    ensures |a| <= |b|
    decreases |a|
  {
    if x :| x in a {
      SubsetSize(a - {x}, b - {x});
    }
  }

  /** A list without one of its elements. */
  function Without<T(==)>(list: seq<T>, x: T): seq<T> {
    if list == [] then [] else
      var front := Without(list[..|list| - 1], x);
      if list[|list| - 1] == x then front else front + [list[|list| - 1]]
  }

  lemma {:induction false} WithoutAbsent<T>(list: seq<T>, x: T)
    requires x !in list
    ensures Without(list, x) == list
  {
    if list != [] {
      WithoutAbsent(list[..|list| - 1], x);
    }
  }

  /** Of distinct elements, it is what is left when one place is closed. */
  lemma {:induction false} WithoutIs<T>(list: seq<T>, k: nat)
    requires k < |list| && Distinct(list)
    ensures Without(list, list[k]) == list[..k] + list[k + 1..]
  {
    var n := |list| - 1;
    if k == n {
      WithoutAbsent(list[..n], list[k]);
    } else {
      WithoutIs(list[..n], k);
      assert list[..k] + list[k + 1..] == list[..n][..k] + list[..n][k + 1..] + [list[n]];
    }
  }

  // ----- what a table must be, on values

  ghost function IdsOf(pool: seq<Source>): (ids: seq<word>)
    reads pool`id
    ensures |ids| == |pool| && forall k :: 0 <= k < |pool| ==> ids[k] == pool[k].id
  {
    if pool == [] then [] else IdsOf(pool[..|pool| - 1]) + [pool[|pool| - 1].id]
  }

  /** A list of at most nine distinct slots, the reference's first. */
  ghost predicate ListOk(list: seq<Source?>, pool: seq<Source>) {
    && 1 <= |list| <= |pool| == MAX_NTP_SRCS
    && Distinct(list) && Distinct(pool)
    && list[0] == pool[0]
    && forall i :: 0 <= i < |list| ==> list[i] != null && list[i] in pool
  }

  /** A peer slot is allocated exactly when it is listed, and the addresses of the
      allocated ones are distinct. */
  ghost predicate SlotsOk(list: seq<Source?>, pool: seq<Source>, ids: seq<word>) {
    && |pool| == |ids| == MAX_NTP_SRCS
    && ids[0] == REF_ID
    && (forall k :: 1 <= k < |ids| ==> (ids[k] != 0 <==> pool[k] in list))
    && forall j, k :: 1 <= j < k < |ids| && ids[j] != 0 ==> ids[j] != ids[k]
  }

  /** The address is that of a listed peer. */
  ghost predicate InUse(addr: word, list: seq<Source?>, pool: seq<Source>, ids: seq<word>)
    requires |pool| == |ids|
  {
    exists k :: 1 <= k < |ids| && ids[k] == addr && pool[k] in list
  }

  lemma StartIsOk(list: seq<Source?>, pool: seq<Source>, ids: seq<word>)
    requires Distinct(pool) && |pool| == MAX_NTP_SRCS == |ids| && list == [pool[0]]
    requires ids[0] == REF_ID && forall k :: 1 <= k < |ids| ==> ids[k] == 0
    ensures ListOk(list, pool) && SlotsOk(list, pool, ids)
  {
  }

  /** With room in the list, some peer slot is free. */
  lemma FreeSlotExists(list: seq<Source?>, pool: seq<Source>, ids: seq<word>)
    requires ListOk(list, pool) && SlotsOk(list, pool, ids) && |list| < MAX_NTP_SRCS
    ensures exists k :: 1 <= k < |ids| && ids[k] == 0
  {
    var slots: seq<Source?> := pool;
    RoomMeansFreeSlot(list, slots);
    var k :| 0 <= k < |slots| && slots[k] !in list;
    assert slots[k] == pool[k] && list[0] == slots[0];
  }

  /** Taking a free slot keeps the table right, but for the address zero. */
  lemma AddKeeps(list: seq<Source?>, pool: seq<Source>, ids: seq<word>, k: nat, addr: word)
    requires ListOk(list, pool) && SlotsOk(list, pool, ids)
    requires 1 <= k < |ids| && ids[k] == 0 && |list| < MAX_NTP_SRCS && !InUse(addr, list, pool, ids)
    ensures ListOk(list + [pool[k]], pool) && pool[k] !in list
    ensures SlotsOk(list + [pool[k]], pool, ids[k := addr]) <==> addr != 0
    ensures InUse(addr, list + [pool[k]], pool, ids[k := addr])
  {
    var longer: seq<Source?>, later := list + [pool[k]], ids[k := addr];
    assert pool[k] in longer;
    assert forall j :: 1 <= j < |ids| && j != k ==> (pool[j] in longer <==> pool[j] in list);
    assert later[k] == addr;
  }

  /** Closing one place of the list. */
  lemma GapCloses(list: seq<Source?>, pool: seq<Source>, at: nat)
    requires ListOk(list, pool) && 1 <= at < |list|
    ensures var left := list[..at] + list[at + 1..];
            && ListOk(left, pool) && left == Without(list, list[at]) && list[at] !in left
            && forall s :: s != list[at] ==> (s in left <==> s in list)
  {
    var left := list[..at] + list[at + 1..];
    WithoutIs(list, at);
    assert forall i :: 0 <= i < |left| ==> left[i] == list[if i < at then i else i + 1];
  }

  /** Closing a peer's place and freeing its slot keeps the table right. */
  lemma RemoveKeeps(list: seq<Source?>, pool: seq<Source>, ids: seq<word>, k: nat, at: nat)
    requires ListOk(list, pool) && SlotsOk(list, pool, ids)
    requires 1 <= k < |pool| && at < |list| && list[at] == pool[k]
    ensures var left := list[..at] + list[at + 1..];
            && ListOk(left, pool) && SlotsOk(left, pool, ids[k := 0])
            && left == Without(list, list[at]) && pool[k] !in left
  {
    assert at != 0;
    GapCloses(list, pool, at);
    hide ListOk, Without;
    assert forall j :: 0 <= j < |pool| && j != k ==> pool[j] != pool[k] by {
      PoolIs(list, pool);
    }
  }

  lemma NotFirst(list: seq<Source?>, pool: seq<Source>, k: nat, at: nat)
    requires ListOk(list, pool) && 1 <= k < |pool| && at < |list| && list[at] == pool[k]
    ensures at != 0
  {
  }

  lemma PeerLeaves(list: seq<Source?>, pool: seq<Source>, ids: seq<word>, k: nat)
    requires ListOk(list, pool) && SlotsOk(list, pool, ids) && 1 <= k < |pool| && pool[k] in list
    ensures SlotsOk(Without(list, pool[k]), pool, ids[k := 0]) && pool[k] !in Without(list, pool[k])
  {
    hide ListOk, SlotsOk, Without;
    var at: nat :| at < |list| && list[at] == pool[k];
    RemoveKeeps(list, pool, ids, k, at);
  }

  lemma PoolIs(list: seq<Source?>, pool: seq<Source>)
    requires ListOk(list, pool)
    ensures |pool| == MAX_NTP_SRCS && Distinct(pool)
    ensures forall i :: 0 <= i < |list| ==> list[i] != null && list[i] in pool
    ensures Distinct(list) && |list| <= MAX_NTP_SRCS && list[0] == pool[0]
  {
  }

  /** Which sources of a list may be synchronized to. */
  ghost function FitsOf(list: seq<Source?>): (fits: seq<bool>)
    requires null !in list
    reads list`reach, list`lost, list`usedOffset, list`usedDrift, list`freqSkew
    ensures |fits| == |list| && forall k :: 0 <= k < |list| ==> fits[k] == list[k].Fit()
  {
    if list == [] then [] else
      var n := |list| - 1;
      assert list[n] in list && null !in list[..n];
      FitsOf(list[..n]) + [list[n].Fit()]
  }

  ghost function ScoresOf(list: seq<Source?>): (scores: seq<real>)
    requires null !in list
    reads list`score
    ensures |scores| == |list| && forall k :: 0 <= k < |list| ==> scores[k] == list[k].score
  {
    if list == [] then [] else
      var n := |list| - 1;
      assert list[n] in list && null !in list[..n];
      ScoresOf(list[..n]) + [list[n].score]
  }

  /** The place of the least score among the fit ones of the first n, the first such; -1
      if none is fit. */
  predicate Best(b: int, n: nat, fits: seq<bool>, scores: seq<real>)
    requires n <= |fits| == |scores|
  {
    && -1 <= b < n
    && (b == -1 <==> forall j :: 0 <= j < n ==> !fits[j])
    && (b >= 0 ==> fits[b] && forall j :: 0 <= j < n && fits[j] ==>
                                scores[b] <= scores[j] && (j < b ==> scores[b] < scores[j]))
  }

  lemma BestOfNone(fits: seq<bool>, scores: seq<real>)
    requires |fits| == |scores|
    ensures Best(-1, 0, fits, scores)
  {
  }

  lemma BestNext(b: int, n: nat, fits: seq<bool>, scores: seq<real>)
    requires n < |fits| == |scores| && Best(b, n, fits, scores)
    ensures -1 <= b < n
    ensures Best(if fits[n] && (b < 0 || scores[n] < scores[b]) then n else b, n + 1, fits, scores)
  {
  }

  // ----- the table as values

  ghost function InfosOf(pool: seq<Source>): (infos: seq<Info>)
    reads pool`id, pool`prune, pool`reach, pool`lost, pool`usedOffset, pool`usedDrift
    reads pool`freqSkew, pool`score
    ensures |infos| == |pool| && forall k :: 0 <= k < |pool| ==> infos[k] == pool[k].Tells()
  {
    if pool == [] then [] else InfosOf(pool[..|pool| - 1]) + [pool[|pool| - 1].Tells()]
  }

  ghost function IndexOf(pool: seq<Source>, s: Source?): (k: nat)
    requires s in pool
    ensures k < |pool| && pool[k] == s
  {
    var n := |pool| - 1;
    if pool[n] == s then n else IndexOf(pool[..n], s)
  }

  /** The listed slots by number. */
  ghost function Numbers(pool: seq<Source>, list: seq<Source?>): (numbers: seq<nat>)
    requires forall i :: 0 <= i < |list| ==> list[i] in pool
    ensures |numbers| == |list| && forall i :: 0 <= i < |list| ==> numbers[i] == IndexOf(pool, list[i])
  {
    if list == [] then [] else
      var n := |list| - 1;
      assert forall i :: 0 <= i < n ==> list[..n][i] == list[i];
      Numbers(pool, list[..n]) + [IndexOf(pool, list[n])]
  }

  /** The slots listed, in order and by number, every slot, and the one selected. */
  datatype State = State(list: seq<nat>, slots: seq<Info>, selected: int)

  predicate Proper(a: State) {
    forall i :: 0 <= i < |a.list| ==> a.list[i] < |a.slots|
  }

  /** A name server's answer that changes nothing. */
  predicate Declined(a: State, own: word, addr: word)
    requires Proper(a)
  {
    || |a.list| >= MAX_NTP_SRCS || addr == own
    || Found(a.list, a.slots, addr)
  }

  predicate FirstFree(slots: seq<Info>, k: nat) {
    1 <= k < |slots| && slots[k].id == 0 && forall j :: 1 <= j < k ==> slots[j].id != 0
  }

  predicate IsPruneable(a: State, i: nat)
    requires Proper(a) && i < |a.list|
  {
    a.list[i] != 0 && a.slots[a.list[i]].prune
  }

  /** The table with a peer of this address in slot k. */
  function Added(a: State, k: nat, addr: word): State
    requires k < |a.slots|
  {
    a.(list := a.list + [k], slots := a.slots[k := Info(addr, false, false, 0.0)])
  }

  /** The first source to be pruned, or the list's end if there is none. */
  predicate FirstPruneable(a: State, at: nat)
    requires Proper(a)
  {
    && at <= |a.list| && (at < |a.list| ==> IsPruneable(a, at))
    && forall j :: 0 <= j < at ==> !IsPruneable(a, j)
  }

  /** The table without the source at this place of its list. */
  function Pruned(a: State, at: nat): State
    requires Proper(a) && at <= |a.list|
  {
    if at == |a.list| then a
    else
      var k := a.list[at];
      State(a.list[..at] + a.list[at + 1..], a.slots[k := a.slots[k].(id := 0)], a.selected)
  }

  function Fits(a: State): (fits: seq<bool>)
    requires Proper(a)
    ensures |fits| == |a.list|
  {
    seq(|a.list|, i requires 0 <= i < |a.list| => a.slots[a.list[i]].fit)
  }

  function Scores(a: State): (scores: seq<real>)
    requires Proper(a)
    ensures |scores| == |a.list|
  {
    seq(|a.list|, i requires 0 <= i < |a.list| => a.slots[a.list[i]].score)
  }

  /** The first fit source of least score is selected, or none. */
  predicate Chosen(a: State, b: int, c: State)
    requires Proper(a)
  {
    && -1 <= b < |a.list| && Best(b, |a.list|, Fits(a), Scores(a))
    && c == a.(selected := if b < 0 then -1 else a.list[b])
  }

  lemma IndexIs(pool: seq<Source>, k: nat)
    requires Distinct(pool) && k < |pool|
    ensures IndexOf(pool, pool[k]) == k
  {
  }

  lemma NumbersAppend(pool: seq<Source>, list: seq<Source?>, k: nat)
    requires Distinct(pool) && k < |pool| && forall i :: 0 <= i < |list| ==> list[i] in pool
    ensures forall s :: s in list + [pool[k]] ==> s in pool
    ensures Numbers(pool, list + [pool[k]]) == Numbers(pool, list) + [k]
  {
    IndexIs(pool, k);
  }

  lemma NumbersGap(pool: seq<Source>, list: seq<Source?>, at: nat)
    requires at < |list| && forall i :: 0 <= i < |list| ==> list[i] in pool
    ensures forall s :: s in list[..at] + list[at + 1..] ==> s in pool
    ensures Numbers(pool, list[..at] + list[at + 1..]) == Numbers(pool, list)[..at] + Numbers(pool, list)[at + 1..]
  {
  }

  /** One of these slots but the first has the address. */
  predicate Found(numbers: seq<nat>, infos: seq<Info>, addr: word)
    requires forall i :: 0 <= i < |numbers| ==> numbers[i] < |infos|
  {
    exists i :: 0 <= i < |numbers| && numbers[i] != 0 && infos[numbers[i]].id == addr
  }

  /** The search by address on pointers and on numbers. */
  lemma InUseIs(addr: word, list: seq<Source?>, pool: seq<Source>, infos: seq<Info>, ids: seq<word>)
    requires Distinct(pool) && |pool| == |infos| == |ids|
    requires forall i :: 0 <= i < |list| ==> list[i] in pool
    requires forall k :: 0 <= k < |ids| ==> ids[k] == infos[k].id
    ensures InUse(addr, list, pool, ids) <==> Found(Numbers(pool, list), infos, addr)
  {
    var numbers := Numbers(pool, list);
    if InUse(addr, list, pool, ids) {
      var k :| 1 <= k < |ids| && ids[k] == addr && pool[k] in list;
      var i :| 0 <= i < |list| && list[i] == pool[k];
      IndexIs(pool, k);
      assert numbers[i] == k;
    }
    if Found(numbers, infos, addr) {
      var i :| 0 <= i < |numbers| && numbers[i] != 0 && infos[numbers[i]].id == addr;
      var k := numbers[i];
      assert pool[k] == list[i] && list[i] in list;
      assert ids[k] == addr;
    }
  }

  /** What an event does to a table. */
  ghost predicate Became(a: State, own: word, e: Event, c: State) {
    Proper(a) && Proper(c) &&
    match e
    case Resolved(addr) =>
      if Declined(a, own, addr) then c == a
      else exists k: nat :: FirstFree(a.slots, k) && c == Added(a, k, addr)
    case Tick =>
      exists at: nat, b: int :: FirstPruneable(a, at) && Proper(Pruned(a, at)) && Chosen(Pruned(a, at), b, c)
    case Reported(k, prune, lost, reach, used, skew, score) =>
      c == if k >= |a.slots| then a
           else a.(slots := a.slots[k := Info(a.slots[k].id, prune, FitBy(lost, reach, used.0, used.1, skew), score)])
  }

  ghost predicate IsRun(own: word, events: seq<Event>, run: seq<State>) {
    |run| == |events| + 1 && forall i :: 0 <= i < |events| ==> Became(run[i], own, events[i], run[i + 1])
  }

  lemma RunNext(own: word, events: seq<Event>, run: seq<State>, e: Event, c: State)
    requires IsRun(own, events, run) && Became(run[|events|], own, e, c)
    ensures IsRun(own, events + [e], run + [c])
  {
    hide Became;
  }

  /** A resolved address ends up as a peer's exactly if it was one before, or there is room
      and it is not the server's own; every other peer stays. */
  lemma ResolvedExactly(a: State, own: word, addr: word, c: State)
    requires Became(a, own, Resolved(addr), c)
    ensures Found(c.list, c.slots, addr) <==> Found(a.list, a.slots, addr) || (|a.list| < 9 && addr != own)
    ensures |c.list| == |a.list| + if !Found(a.list, a.slots, addr) && |a.list| < 9 && addr != own then 1 else 0
    ensures a.list <= c.list
  {
    if !Declined(a, own, addr) {
      var k: nat :| FirstFree(a.slots, k) && c == Added(a, k, addr);
      assert c.list[|a.list|] == k && c.slots[k].id == addr;
    }
  }

  /** The reference is listed first, no slot twice, and no peer has this address. */
  predicate Clean(a: State, own: word) {
    && Proper(a) && Distinct(a.list) && a.list != [] && a.list[0] == 0
    && (forall k :: 1 <= k < |a.slots| && a.slots[k].id == 0 ==> k !in a.list)
    && !Found(a.list, a.slots, own)
  }

  lemma CleanStays(a: State, own: word, e: Event, c: State)
    requires Became(a, own, e, c) && Clean(a, own) && (e.Resolved? ==> e.addr != 0)
    ensures Clean(c, own)
  {
    match e {
      case Resolved(addr) =>
        if !Declined(a, own, addr) {
          var k: nat :| FirstFree(a.slots, k) && c == Added(a, k, addr);
          AddedClean(a, own, k, addr);
        }
      case Tick =>
        var at: nat, b: int :| FirstPruneable(a, at) && Proper(Pruned(a, at)) && Chosen(Pruned(a, at), b, c);
        PrunedClean(a, own, at);
        SelectedClean(Pruned(a, at), own, c);
      case Reported(k, _, _, _, _, _, _) =>
        if k < |a.slots| {
          ReportedClean(a, own, k, c);
        }
    }
  }

  lemma AddedClean(a: State, own: word, k: nat, addr: word)
    requires Clean(a, own) && FirstFree(a.slots, k) && addr != own && addr != 0
    ensures Clean(Added(a, k, addr), own)
  {
    var c := Added(a, k, addr);
    forall i | 0 <= i < |c.list| && c.list[i] != 0
      ensures c.slots[c.list[i]].id != own
    {
      assert i < |a.list| ==> c.list[i] == a.list[i] && a.list[i] in a.list;
    }
  }

  lemma PrunedClean(a: State, own: word, at: nat)
    requires Clean(a, own) && FirstPruneable(a, at)
    ensures Proper(Pruned(a, at)) && Clean(Pruned(a, at), own)
  {
    if at < |a.list| {
      var c := Pruned(a, at);
      assert forall i :: 0 <= i < |c.list| ==> c.list[i] == a.list[if i < at then i else i + 1];
      assert at != 0;
    }
  }

  lemma SelectedClean(a: State, own: word, c: State)
    requires Clean(a, own) && c == a.(selected := c.selected)
    ensures Clean(c, own)
  {
  }

  lemma ReportedClean(a: State, own: word, k: nat, c: State)
    requires Clean(a, own) && k < |a.slots|
    requires |c.slots| == |a.slots| && c.slots[k].id == a.slots[k].id && c == a.(slots := a.slots[k := c.slots[k]])
    ensures Clean(c, own)
  {
  }

  /** Over any run the server never lists itself as a peer, nor any slot twice, and the
      reference stays first, whatever the name servers answer but the address zero. */
  lemma {:induction false} NeverItself(own: word, events: seq<Event>, run: seq<State>)
    requires IsRun(own, events, run) && Clean(run[0], own)
    requires forall i :: 0 <= i < |events| && events[i].Resolved? ==> events[i].addr != 0
    ensures Clean(run[|events|], own)
  {
    hide Clean, Became;
    if events != [] {
      var n := |events| - 1;
      NeverItself(own, events[..n], run[..n + 1]);
      CleanStays(run[n], own, events[n], run[n + 1]);
    }
  }

  // ----- the code

  /** What happens to a table. */
  datatype Event =
    | Resolved(addr: word)
    | Tick
    | Reported(k: nat, prune: bool, lost: bool, reach: nat, used: (nat, nat), skew: real, score: real)

  class Table {
    const ipAddress: word
    const pool: seq<Source>            // the GPS reference, then the peer slots
    const sources: array<Source?>
    var cntSources: nat
    var selectedSource: Source?

    ghost function Listed(): (list: seq<Source?>)
      requires cntSources <= sources.Length
      reads this, sources
    {
      sources[..cntSources]
    }

    ghost function Ids(): (ids: seq<word>)
      reads pool`id
    {
      IdsOf(pool)
    }

    /** The table as values. */
    ghost function Account(): (a: State)
      requires ArrayOk()
      reads this, sources, pool
      ensures Proper(a)
    {
      PoolIs(Listed(), pool);
      State(Numbers(pool, Listed()), InfosOf(pool),
            if selectedSource == null then -1 else IndexOf(pool, selectedSource))
    }

    /** The reference and the peers keep their kinds. */
    ghost predicate Kinds()
      reads pool`mode
    {
      forall k :: 0 <= k < |pool| ==> (pool[k].mode == Reference <==> k == 0)
    }

    ghost predicate ArrayOk()
      reads this, sources
    {
      && sources.Length == MAX_NTP_SRCS && 1 <= cntSources <= MAX_NTP_SRCS
      && ListOk(Listed(), pool)
      && (forall i :: cntSources <= i < MAX_NTP_SRCS ==> sources[i] == null)
      && (selectedSource == null || selectedSource in Listed())
    }

    ghost predicate Valid()
      reads this, sources, pool`id, pool`mode
    {
      ArrayOk() && Kinds() && SlotsOk(Listed(), pool, Ids())
    }

    /** The zeroed storage of the sources. */
    static method MakePool() returns (slots: seq<Source>)
      ensures |slots| == MAX_NTP_SRCS && Distinct(slots) && fresh(slots)
      ensures forall k :: 0 <= k < |slots| ==> slots[k].id == 0 && slots[k].mode == Client
    {
      slots := [];
      while |slots| < MAX_NTP_SRCS
        invariant |slots| <= MAX_NTP_SRCS && Distinct(slots) && fresh(slots)
        invariant forall k :: 0 <= k < |slots| ==> slots[k].id == 0 && slots[k].mode == Client
      {
        var p := new Source();
        slots := slots + [p];
      }
    }

    /** The static storage, zeroed. */
    ghost predicate Zeroed()
      reads this, sources, pool`id, pool`mode
    {
      && |pool| == MAX_NTP_SRCS == sources.Length && Distinct(pool)
      && (forall k :: 0 <= k < |pool| ==> pool[k].id == 0 && pool[k].mode == Client)
      && (forall i :: 0 <= i < MAX_NTP_SRCS ==> sources[i] == null)
      && cntSources == 0 && selectedSource == null
    }

    /** ntp::init(), as far as the list. */
    method Init()
      requires Zeroed()
      modifies this`cntSources, sources, pool
      ensures Valid() && Listed() == [pool[0]] && selectedSource == null
      ensures Clean(Account(), ipAddress)
    {
      hide ListOk, SlotsOk;
      pool[0].Construct(REF_ID, Reference);
      sources[0] := pool[0];
      cntSources := 1;
      assert Listed() == [pool[0]];
      StartIsOk(Listed(), pool, Ids());
      StartIsClean();
    }

    constructor (address: word)
      ensures Valid() && Listed() == [pool[0]] && ipAddress == address && selectedSource == null
      ensures fresh(pool) && fresh(sources)
    {
      var slots := MakePool();
      ipAddress := address;
      pool := slots;
      sources := new Source?[MAX_NTP_SRCS](i => null);
      cntSources := 0;
      selectedSource := null;
      new;
      Init();
      hide Valid;
    }

    /** A slot is added to the list. */
    method Append(slot: Source)
      requires ArrayOk() && cntSources < MAX_NTP_SRCS && ListOk(Listed() + [slot], pool)
      modifies this`cntSources, sources
      ensures ArrayOk() && Listed() == old(Listed()) + [slot]
    {
      hide ListOk;
      PoolIs(Listed(), pool);
      ghost var list := Listed();
      sources[cntSources] := slot;
      cntSources := cntSources + 1;
      assert Listed() == list + [slot];
    }

    /** A peer is constructed in a slot. */
    method Occupy(slot: Source, addr: word, ghost k: nat)
      requires Distinct(pool) && Kinds() && 1 <= k < |pool| && slot == pool[k]
      modifies slot
      ensures Kinds() && Ids() == old(Ids())[k := addr]
      ensures InfosOf(pool) == old(InfosOf(pool))[k := Info(addr, false, false, 0.0)]
    {
      hide Source.Tells, Source.Fit, InfosOf, IdsOf;
      ghost var ids, infos := Ids(), InfosOf(pool);
      slot.Construct(addr, Client);
      assert Ids() == ids[k := addr];
      assert InfosOf(pool) == infos[k := Info(addr, false, false, 0.0)];
    }

    /** newPeer(): the first free slot, appended to the list. */
    method NewPeer(addr: word) returns (peer: Source?, ghost k: nat)
      requires Valid() && cntSources < MAX_NTP_SRCS && !InUse(addr, Listed(), pool, Ids())
      modifies this`cntSources, sources, pool
      ensures ArrayOk() && Kinds() && (SlotsOk(Listed(), pool, Ids()) <==> addr != 0)
      ensures 1 <= k < |pool| && peer == pool[k] && selectedSource == old(selectedSource)
      ensures old(Ids())[k] == 0 && forall j :: 1 <= j < k ==> old(Ids())[j] != 0
      ensures Listed() == old(Listed()) + [peer] && Ids() == old(Ids())[k := addr]
      ensures InUse(addr, Listed(), pool, Ids())
      ensures InfosOf(pool) == old(InfosOf(pool))[k := Info(addr, false, false, 0.0)]
    {
      hide ListOk, SlotsOk, InUse, Source.Tells, Source.Fit, InfosOf, IdsOf, Kinds;
      ghost var list, ids := Listed(), Ids();
      FreeSlotExists(list, pool, ids);
      PoolIs(list, pool);
      var i := 1;
      while i < MAX_NTP_SRCS
        invariant 1 <= i <= MAX_NTP_SRCS
        invariant forall j :: 1 <= j < i ==> ids[j] != 0
      {
        var slot := pool[i];
        assert ids[i] == slot.id;
        if slot.IsAllocated() {
          i := i + 1;
          continue;
        }
        AddKeeps(list, pool, ids, i, addr);
        Append(slot);
        Occupy(slot, addr, i);
        return slot, i;
      }
      assert false;
    }

    /** The search of deletePeer(). */
    method Locate(peer: Source) returns (slot: int)
      requires cntSources <= sources.Length
      ensures if peer in Listed() then 0 <= slot < cntSources && Listed()[slot] == peer else slot == -1
    {
      ghost var list := Listed();
      slot := -1;
      var i := 0;
      while i < cntSources
        invariant 0 <= i <= cntSources
        invariant slot == -1 ==> forall j :: 0 <= j < i ==> list[j] != peer
        invariant slot != -1 ==> 0 <= slot < i && list[slot] == peer
      {
        assert list[i] == sources[i];
        if sources[i] == peer {
          slot := i;
        }
        i := i + 1;
      }
    }

    /** The shift at the end of deletePeer(). */
    method CloseGap(slot: nat, ghost list: seq<Source?>)
      requires sources.Length == MAX_NTP_SRCS && slot <= cntSources < MAX_NTP_SRCS
      requires |list| == cntSources + 1 && sources[..cntSources + 1] == list
      requires forall i :: cntSources < i < MAX_NTP_SRCS ==> sources[i] == null
      modifies sources
      ensures Listed() == list[..slot] + list[slot + 1..]
      ensures forall i :: cntSources <= i < MAX_NTP_SRCS ==> sources[i] == null
    {
      var i := slot;
      while i < cntSources
        invariant slot <= i <= cntSources
        invariant forall j :: 0 <= j < i ==> sources[j] == list[if j < slot then j else j + 1]
        invariant forall j :: i <= j <= cntSources ==> sources[j] == list[j]
        invariant forall j :: cntSources < j < MAX_NTP_SRCS ==> sources[j] == null
      {
        sources[i] := sources[i + 1];
        i := i + 1;
      }
      sources[cntSources] := null;
    }

    /** The slot of a peer is given back. */
    method Free(peer: Source, ghost k: nat)
      requires Distinct(pool) && Kinds() && 1 <= k < |pool| && peer == pool[k]
      modifies peer`id, peer`mode
      ensures Kinds() && Ids() == old(Ids())[k := 0]
      ensures InfosOf(pool) == old(InfosOf(pool))[k := old(InfosOf(pool))[k].(id := 0)]
    {
      hide Source.Tells, Source.Fit, InfosOf, IdsOf;
      ghost var ids, infos := Ids(), InfosOf(pool);
      peer.Destroy();
      assert Ids() == ids[k := 0];
      assert InfosOf(pool) == infos[k := infos[k].(id := 0)];
    }

    /** A peer leaves the list. */
    method Unlist(peer: Source, ghost k: nat)
      requires ArrayOk() && 1 <= k < |pool| && peer == pool[k] && peer in Listed()
      modifies this`cntSources, this`selectedSource, sources
      ensures ArrayOk() && Listed() == Without(old(Listed()), peer)
      ensures selectedSource == if old(selectedSource) == peer then null else old(selectedSource)
    {
      hide ListOk, Without;
      ghost var list := Listed();
      PoolIs(list, pool);
      if peer == selectedSource {
        selectedSource := null;
      }
      var slot := Locate(peer);
      cntSources := cntSources - 1;
      CloseGap(slot, list);
      NotFirst(list, pool, k, slot);
      GapCloses(list, pool, slot);
    }

    /** deletePeer() */
    method DeletePeer(peer: Source, ghost k: nat)
      requires Valid() && 1 <= k < |pool| && peer == pool[k] && peer in Listed()
      modifies this, sources, peer`id, peer`mode
      ensures Valid() && Listed() == Without(old(Listed()), peer) && peer !in Listed()
      ensures Ids() == old(Ids())[k := 0]
      ensures InfosOf(pool) == old(InfosOf(pool))[k := old(InfosOf(pool))[k].(id := 0)]
      ensures selectedSource == if old(selectedSource) == peer then null else old(selectedSource)
    {
      hide ListOk, SlotsOk, Without, Source.Tells, Source.Fit, InfosOf, IdsOf, Kinds;
      ghost var list, ids := Listed(), Ids();
      PoolIs(list, pool);
      PeerLeaves(list, pool, ids, k);
      Unlist(peer, k);
      Free(peer, k);
    }

    lemma IdsAre()
      ensures |Ids()| == |InfosOf(pool)| && forall k :: 0 <= k < |Ids()| ==> Ids()[k] == InfosOf(pool)[k].id
    {
    }

    /** Whether ntpDnsCallback() turns the address down. */
    ghost predicate Refused(addr: word)
      requires ArrayOk()
      reads this, sources, pool`id
    {
      PoolIs(Listed(), pool);
      cntSources >= MAX_NTP_SRCS || addr == ipAddress || InUse(addr, Listed(), pool, Ids())
    }

    /** ntpDnsCallback(): the table stays right unless the address zero is added. */
    method DnsCallback(addr: word) returns (ghost k: nat)
      requires Valid()
      modifies this`cntSources, sources, pool
      ensures ArrayOk() && Kinds() && selectedSource == old(selectedSource)
      ensures old(Refused(addr)) ==> Listed() == old(Listed()) && InfosOf(pool) == old(InfosOf(pool))
      ensures !old(Refused(addr)) ==>
                && FirstFree(old(InfosOf(pool)), k) && Listed() == old(Listed()) + [pool[k]]
                && InfosOf(pool) == old(InfosOf(pool))[k := Info(addr, false, false, 0.0)]
                && InUse(addr, Listed(), pool, Ids())
      ensures Valid() <==> old(Refused(addr)) || addr != 0
    {
      hide ListOk, SlotsOk, InUse, Source.Tells, Source.Fit, InfosOf, IdsOf;
      k := 0;
      PoolIs(Listed(), pool);
      IdsAre();
      if cntSources >= MAX_NTP_SRCS {
        return;
      }
      if addr == ipAddress {
        return;
      }
      var source := Recipient(addr);
      if source != null {
        return;
      }
      var peer;
      peer, k := NewPeer(addr);
    }

    /** The search by isRecipient() of ntpDnsCallback() and ntpResponse(): the listed peer
        with this address, if there is one. */
    method Recipient(srcAddr: word) returns (source: Source?)
      requires Valid()
      ensures source != null <==> InUse(srcAddr, Listed(), pool, Ids())
      ensures source != null ==> source in Listed() && source.mode == Client && source.id == srcAddr
      ensures forall k :: 1 <= k < |pool| && pool[k] in Listed() && pool[k].id == srcAddr ==> pool[k] == source
    {
      ghost var list := Listed();
      var i := 0;
      while i < cntSources
        invariant 0 <= i <= cntSources
        invariant forall j :: 0 <= j < i ==> list[j] != null && !list[j].IsRecipient(srcAddr)
      {
        source := sources[i];
        assert source == list[i];
        if !source.IsRecipient(srcAddr) {
          i := i + 1;
          continue;
        }
        return;
      }
      source := null;
    }

    ghost predicate PruneableAt(k: nat)
      requires ArrayOk() && k < cntSources
      reads this, sources, pool`mode, pool`prune
    {
      PoolIs(Listed(), pool);
      Listed()[k].IsPruneable()
    }

    /** The pruning of runSelect(): the first source of the list that is to go, never the
        reference. */
    method Prune() returns (ghost k: nat)
      requires Valid()
      modifies this, sources, pool`id, pool`mode
      ensures Valid() && k <= old(cntSources)
      ensures forall j :: 0 <= j < k ==> !old(PruneableAt(j))
      ensures k == old(cntSources) ==> Listed() == old(Listed()) && InfosOf(pool) == old(InfosOf(pool))
      ensures k < old(cntSources) ==>
                && old(PruneableAt(k)) && old(Listed()[k]) != pool[0] && old(Listed()[k]) in pool
                && Listed() == old(Listed()[..k]) + old(Listed()[k + 1..])
                && var slot := IndexOf(pool, old(Listed()[k]));
                   InfosOf(pool) == old(InfosOf(pool))[slot := old(InfosOf(pool))[slot].(id := 0)]
    {
      hide ListOk, SlotsOk, Without, Source.Tells, Source.Fit, InfosOf, IdsOf, IndexOf;
      PoolIs(Listed(), pool);
      ghost var list := Listed();
      var i := 0;
      while i < cntSources
        invariant 0 <= i <= cntSources
        invariant forall j :: 0 <= j < i ==> !PruneableAt(j)
      {
        assert list[i] == sources[i];
        if sources[i].IsPruneable() {
          WithoutIs(list, i);
          DeletePeer(sources[i], IndexOf(pool, sources[i]));
          return i;
        }
        i := i + 1;
      }
      k := i;
    }

    /** The selection loop of runSelect(). */
    method Scan(ghost list: seq<Source?>, ghost fits: seq<bool>, ghost scores: seq<real>) returns (ghost b: int)
      requires cntSources <= sources.Length && sources[..cntSources] == list && |fits| == |scores| == |list|
      requires Distinct(list) && forall j :: 0 <= j < |list| ==>
                 list[j] != null && list[j] in pool && list[j].Fit() == fits[j] && list[j].score == scores[j]
      modifies this`selectedSource, pool`state
      ensures forall j :: 0 <= j < |list| ==> list[j].Judged()
      ensures -1 <= b < |list| && Best(b, |list|, fits, scores)
      ensures selectedSource == if b < 0 then null else list[b]
    {
      hide Best, Source.Fit, Source.Judged, Source.Tells;
      selectedSource := null;
      b := -1;
      BestOfNone(fits, scores);
      var i := 0;
      while i < cntSources
        invariant 0 <= i <= cntSources
        invariant forall j :: 0 <= j < |list| ==> list[j].Fit() == fits[j]
        invariant forall j :: 0 <= j < i ==> list[j].Judged()
        invariant -1 <= b < i && Best(b, i, fits, scores)
        invariant selectedSource == if b < 0 then null else list[b]
      {
        BestNext(b, i, fits, scores);
        var fit := sources[i].IsSelectable();
        if !fit {
          i := i + 1;
          continue;
        }
        if selectedSource == null {
          selectedSource := sources[i];
          b := i;
          i := i + 1;
          continue;
        }
        if sources[i].score < selectedSource.score {
          selectedSource := sources[i];
          b := i;
        }
        i := i + 1;
      }
    }

    /** select() of the source selected. */
    method Mark(ghost list: seq<Source?>, ghost b: int)
      requires Distinct(list) && -1 <= b < |list| && selectedSource == if b < 0 then null else list[b]
      requires forall j :: 0 <= j < |list| ==> list[j] != null && list[j].Judged()
      requires forall j :: 0 <= j < |list| ==> list[j] in pool
      modifies pool`state
      ensures forall j :: 0 <= j < |list| ==> if j == b then list[j].state == Selected else list[j].Judged()
    {
      hide Source.Judged;
      if selectedSource != null {
        selectedSource.Select();
      }
    }

    /** The selection of runSelect(), and the state reported of each source. */
    method SelectBest() returns (ghost b: int)
      requires Valid()
      modifies this`selectedSource, pool`state
      ensures Valid() && Listed() == old(Listed()) && InfosOf(pool) == old(InfosOf(pool))
      ensures -1 <= b < |Listed()|
      ensures null !in Listed() && Best(b, |Listed()|, FitsOf(Listed()), ScoresOf(Listed()))
      ensures selectedSource == if b < 0 then null else Listed()[b]
      ensures forall j :: 0 <= j < |Listed()| ==>
                if j == b then Listed()[j].state == Selected else Listed()[j].Judged()
    {
      hide ListOk, SlotsOk, Best, Source.Fit, Source.Judged, Source.Tells;
      hide InfosOf, IdsOf, FitsOf, ScoresOf, IndexOf;
      PoolIs(Listed(), pool);
      ghost var list := Listed();
      ghost var ids, fits, scores := Ids(), FitsOf(list), ScoresOf(list);
      ghost var infos := InfosOf(pool);
      b := Scan(list, fits, scores);
      Mark(list, b);
      assert FitsOf(list) == fits && ScoresOf(list) == scores;
      assert Listed() == list && Ids() == ids && InfosOf(pool) == infos;
    }

    /** runSelect(), as far as the table: the first source that is to go is pruned, then
        the best of those left is selected. */
    method RunSelect() returns (ghost k: nat, ghost b: int)
      requires Valid()
      modifies this, sources, pool`id, pool`mode, pool`state
      ensures Valid() && k <= old(cntSources)
      ensures forall j :: 0 <= j < k ==> !old(PruneableAt(j))
      ensures k == old(cntSources) ==> Listed() == old(Listed()) && InfosOf(pool) == old(InfosOf(pool))
      ensures k < old(cntSources) ==>
                && old(PruneableAt(k)) && old(Listed()[k]) != pool[0] && old(Listed()[k]) in pool
                && Listed() == old(Listed()[..k]) + old(Listed()[k + 1..])
                && var slot := IndexOf(pool, old(Listed()[k]));
                   InfosOf(pool) == old(InfosOf(pool))[slot := old(InfosOf(pool))[slot].(id := 0)]
      ensures -1 <= b < |Listed()|
      ensures null !in Listed() && Best(b, |Listed()|, FitsOf(Listed()), ScoresOf(Listed()))
      ensures selectedSource == if b < 0 then null else Listed()[b]
      // the state reported of each source
      ensures forall j :: 0 <= j < |Listed()| ==>
                if j == b then Listed()[j].state == Selected else Listed()[j].Judged()
    {
      hide ListOk, SlotsOk, Best, Source.Fit, Source.Judged, Source.Tells;
      hide InfosOf, IdsOf, FitsOf, ScoresOf, IndexOf;
      k := Prune();
      b := SelectBest();
    }

    /** A source's own tasks change what the table reads of it. */
    method Report(k: nat, prune: bool, lost: bool, reach: nat, used: (nat, nat), skew: real, score: real)
      requires Valid() && k < |pool|
      modifies pool`prune, pool`lost, pool`reach, pool`usedOffset, pool`usedDrift
      modifies pool`freqSkew, pool`score
      ensures Valid() && Listed() == old(Listed())
      ensures InfosOf(pool) == old(InfosOf(pool))[
                k := Info(pool[k].id, prune, FitBy(lost, reach, used.0, used.1, skew), score)]
    {
      hide ListOk, SlotsOk, InfosOf, IdsOf, Source.Tells, Source.Fit;
      ghost var infos := InfosOf(pool);
      PoolIs(Listed(), pool);
      pool[k].Change(prune, lost, reach, used, skew, score);
      assert InfosOf(pool) == infos[k := pool[k].Tells()];
    }

    // ----- the table follows its values

    lemma RefusedIs(addr: word)
      requires Valid()
      ensures Refused(addr) <==> Declined(Account(), ipAddress, addr)
    {
      PoolIs(Listed(), pool);
      InUseIs(addr, Listed(), pool, InfosOf(pool), Ids());
    }

    lemma PruneableIs(i: nat)
      requires Valid() && i < cntSources
      ensures PruneableAt(i) <==> IsPruneable(Account(), i)
    {
      PoolIs(Listed(), pool);
    }

    lemma FitsAre()
      requires Valid()
      ensures null !in Listed()
      ensures Fits(Account()) == FitsOf(Listed()) && Scores(Account()) == ScoresOf(Listed())
    {
      PoolIs(Listed(), pool);
    }

    method Resolve(addr: word)
      requires Valid() && addr != 0
      modifies this`cntSources, sources, pool
      ensures Valid() && Became(old(Account()), ipAddress, Resolved(addr), Account())
    {
      hide ListOk, SlotsOk, Declined, Source.Tells, Source.Fit, InfosOf, IdsOf, IndexOf, Numbers;
      ghost var a, list := Account(), Listed();
      PoolIs(list, pool);
      RefusedIs(addr);
      hide Refused;
      ghost var k := DnsCallback(addr);
      if !Declined(a, ipAddress, addr) {
        NumbersAppend(pool, list, k);
        assert Account() == Added(a, k, addr);
      }
    }

    method Reselect()
      requires Valid()
      modifies this, sources, pool`id, pool`mode, pool`state
      ensures Valid() && Became(old(Account()), ipAddress, Tick, Account())
    {
      hide ListOk, SlotsOk, Best, PruneableAt, IsPruneable, Source.Tells, Source.Fit, Source.Judged;
      hide InfosOf, IdsOf, IndexOf, Numbers, FitsOf, ScoresOf;
      ghost var a, list := Account(), Listed();
      PoolIs(list, pool);
      forall i | 0 <= i < cntSources
        ensures PruneableAt(i) <==> IsPruneable(a, i)
      {
        PruneableIs(i);
      }
      ghost var k, b := RunSelect();
      ghost var c := Account();
      if k < |list| {
        NumbersGap(pool, list, k);
      }
      FitsAre();
      PoolIs(Listed(), pool);
      assert Pruned(a, k) == c.(selected := a.selected);
      assert FirstPruneable(a, k);
      assert Fits(Pruned(a, k)) == Fits(c) && Scores(Pruned(a, k)) == Scores(c);
      assert Chosen(Pruned(a, k), b, c);
    }

    /** One event. */
    method Handle(e: Event)
      requires Valid() && (e.Resolved? ==> e.addr != 0)
      modifies this, sources, pool
      ensures Valid() && Became(old(Account()), ipAddress, e, Account())
    {
      hide ListOk, SlotsOk, FitBy;
      match e {
        case Resolved(addr) => Resolve(addr);
        case Tick => Reselect();
        case Reported(k, prune, lost, reach, used, skew, score) =>
          if k < |pool| {
            Report(k, prune, lost, reach, used, skew, score);
          }
      }
    }

    /** Any mix of name server answers, selections and reports keeps the table right, as
        long as no answer is the address zero, and does to the table what each of them
        is to do. */
    method Serve(events: seq<Event>) returns (ghost run: seq<State>)
      requires Valid() && forall i :: 0 <= i < |events| && events[i].Resolved? ==> events[i].addr != 0
      modifies this, sources, pool
      ensures Valid()
      ensures IsRun(ipAddress, events, run) && run[0] == old(Account()) && run[|events|] == Account()
      // the server does not list itself
      ensures old(Clean(Account(), ipAddress)) ==> Clean(Account(), ipAddress)
    {
      hide ArrayOk, SlotsOk, Kinds, Became, Account, Clean;
      run := [Account()];
      for i := 0 to |events|
        invariant Valid()
        invariant IsRun(ipAddress, events[..i], run) && run[0] == old(Account()) && run[i] == Account()
      {
        Handle(events[i]);
        RunNext(ipAddress, events[..i], run, events[i], Account());
        assert events[..i + 1] == events[..i] + [events[i]];
        run := run + [Account()];
      }
      assert events[..|events|] == events;
      if Clean(run[0], ipAddress) {
        NeverItself(ipAddress, events, run);
      }
    }

    /** The table as Init() leaves it lists the reference alone. */
    lemma StartIsClean()
      requires Valid() && Listed() == [pool[0]]
      ensures Clean(Account(), ipAddress)
    {
      PoolIs(Listed(), pool);
      IndexIs(pool, 0);
    }
  }
}
