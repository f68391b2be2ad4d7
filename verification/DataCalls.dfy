/**
  The data-call table of the radio wrapper: five cells of which four are used, filled by
  setup replies and cleared by deactivations, with the first free cell advertised to the
  modem as an interface id in each setup request.
 */
module DataCalls {

  const SLOTS := 4

  // ----- the table as a value -----

  /** Four used cells holding -1 or a call id, and a fifth that is never used. */
  ghost predicate Table(t: seq<int>) {
    |t| == 5 && t[4] == -1 && forall i :: 0 <= i < SLOTS ==> t[i] >= -1
  }

  /** First free cell from `i` on, 4 when there is none. */
  function FreeFrom(t: seq<int>, i: nat): (j: nat)
    requires |t| == 5 && i <= SLOTS
    ensures i <= j <= SLOTS
    ensures j < SLOTS ==> t[j] < 0
    ensures forall k :: i <= k < j ==> t[k] >= 0
    decreases SLOTS - i
  {
    if i == SLOTS || t[i] < 0 then i else FreeFrom(t, i + 1)
  }

  function FirstFree(t: seq<int>): nat
    requires |t| == 5
  {
    FreeFrom(t, 0)
  }

  /** The id sent with a setup request: 0 when the table is full. */
  function Advertised(t: seq<int>): nat
    requires |t| == 5
  {
    if FirstFree(t) < SLOTS then FirstFree(t) + 1 else 0
  }

  function HolderFrom(t: seq<int>, cid: int, i: nat): (j: nat)
    requires |t| == 5 && i <= SLOTS
    ensures i <= j <= SLOTS
    ensures j < SLOTS ==> t[j] == cid
    ensures forall k :: i <= k < j ==> t[k] != cid
    decreases SLOTS - i
  {
    if i == SLOTS || t[i] == cid then i else HolderFrom(t, cid, i + 1)
  }

  function Stored(t: seq<int>, cid: int): (t': seq<int>)
    requires |t| == 5
    ensures |t'| == 5
  {
    if cid >= 0 && FirstFree(t) < SLOTS then t[FirstFree(t) := cid] else t
  }

  function Released(t: seq<int>, cid: int): (t': seq<int>)
    requires |t| == 5
    ensures |t'| == 5
  {
    var i := HolderFrom(t, cid, 0);
    if i < SLOTS then t[i := -1] else t
  }

  // ----- the table in place -----

  class DataCallTable {
    const cids: array<int>

    ghost predicate Valid()
      reads this, cids
    {
      cids.Length == 5 && Table(cids[..])
    }

    constructor ()
      ensures Valid() && fresh(cids) && cids[..] == [-1, -1, -1, -1, -1]
    {
      cids := new int[5](_ => -1);
      new;
      assert cids[..] == [-1, -1, -1, -1, -1];
    }

    method SetupDataCall() returns (interfaceId: nat)
      requires Valid()
      ensures interfaceId == Advertised(cids[..])
    {
      interfaceId := 0;
      for i := 0 to 4
        invariant interfaceId == 0 && FreeFrom(cids[..], i) == FirstFree(cids[..])
      {
        if cids[i] < 0 {
          interfaceId := i + 1;
          break;
        }
      }
    }

    /** The reply to a setup request, with the call id it carries. */
    method FetchCidFromDataCall(cid: int)
      requires Valid()
      modifies cids
      ensures Valid() && cids[..] == Stored(old(cids[..]), cid)
    {
      if cid >= 0 {
        for i := 0 to 4
          invariant cids[..] == old(cids[..]) && FreeFrom(cids[..], i) == FirstFree(cids[..])
        {
          if cids[i] < 0 {
            cids[i] := cid;
            assert cids[..] == old(cids[..])[i := cid];
            break;
          }
        }
      }
    }

    method DeactivateDataCall(cid: int)
      requires Valid()
      modifies cids
      ensures Valid() && cids[..] == Released(old(cids[..]), cid)
    {
      for i := 0 to 4
        invariant cids[..] == old(cids[..]) && HolderFrom(cids[..], cid, i) == HolderFrom(cids[..], cid, 0)
      {
        if cids[i] == cid {
          cids[i] := -1;
          assert cids[..] == old(cids[..])[i := -1];
          break;
        }
      }
    }
  }

  // ----- runs -----

  datatype Step = Request | Reply(cid: int) | Deactivate(cid: int)

  function Apply(t: seq<int>, s: Step): (t': seq<int>)
    requires |t| == 5
    ensures |t'| == 5
  {
    match s
    case Request => t
    case Reply(cid) => Stored(t, cid)
    case Deactivate(cid) => Released(t, cid)
  }

  function Run(t: seq<int>, steps: seq<Step>): (t': seq<int>)
    requires |t| == 5
    ensures |t'| == 5
    decreases steps
  {
    if steps == [] then t else Run(Apply(t, steps[0]), steps[1..])
  }

  /** The abstract table: a bag of at most four call ids. */
  function BagStep(bag: multiset<int>, s: Step): multiset<int> {
    match s
    case Request => bag
    case Reply(cid) => if cid >= 0 && |bag| < SLOTS then bag + multiset{cid} else bag
    case Deactivate(cid) => bag - multiset{cid}
  }

  function BagRun(bag: multiset<int>, steps: seq<Step>): multiset<int>
    decreases steps
  {
    if steps == [] then bag else BagRun(BagStep(bag, steps[0]), steps[1..])
  }

  function One(cid: int): multiset<int> {
    if cid >= 0 then multiset{cid} else multiset{}
  }

  function HeldIn(cells: seq<int>): multiset<int> {
    if cells == [] then multiset{} else One(cells[0]) + HeldIn(cells[1..])
  }

  /** The call ids the table holds. */
  function Held(t: seq<int>): multiset<int>
    requires |t| == 5
  {
    HeldIn(t[..SLOTS])
  }

  lemma {:induction false} HeldInSize(cells: seq<int>)
    ensures |HeldIn(cells)| <= |cells|
    ensures |HeldIn(cells)| == |cells| <==> forall i :: 0 <= i < |cells| ==> cells[i] >= 0
  {
    if cells != [] {
      HeldInSize(cells[1..]);
      assert |One(cells[0])| == if cells[0] >= 0 then 1 else 0;
      assert |HeldIn(cells)| == |One(cells[0])| + |HeldIn(cells[1..])|;
      assert forall i :: 0 < i < |cells| ==> cells[i] == cells[1..][i - 1];
    }
  }

  lemma {:induction false} HeldInMembers(cells: seq<int>, cid: int)
    ensures cid in HeldIn(cells) <==> cid >= 0 && cid in cells
  {
    if cells != [] {
      HeldInMembers(cells[1..], cid);
    }
  }

  lemma Balance(x: multiset<int>, a: multiset<int>, b: multiset<int>, c: multiset<int>, d: multiset<int>)
    requires a + b == c + d
    ensures (x + a) + b == (x + c) + d
  {
    assert (x + a) + b == x + (a + b);
  }

  lemma {:induction false} HeldInUpdate(cells: seq<int>, i: nat, cid: int)
    requires i < |cells|
    ensures HeldIn(cells[i := cid]) + One(cells[i]) == HeldIn(cells) + One(cid)
  {
    var updated := cells[i := cid];
    if i == 0 {
      assert updated[1..] == cells[1..];
    } else {
      assert updated[1..] == cells[1..][i - 1 := cid];
      HeldInUpdate(cells[1..], i - 1, cid);
      Balance(One(cells[0]), HeldIn(updated[1..]), One(cells[i]), HeldIn(cells[1..]), One(cid));
    }
  }

  lemma HeldSize(t: seq<int>)
    requires Table(t)
    ensures |Held(t)| <= SLOTS
    ensures |Held(t)| == SLOTS <==> FirstFree(t) == SLOTS
  {
    HeldInSize(t[..SLOTS]);
    assert forall i :: 0 <= i < SLOTS ==> t[..SLOTS][i] == t[i];
  }

  lemma HeldMembers(t: seq<int>, cid: int)
    requires Table(t)
    ensures cid in Held(t) <==> cid >= 0 && HolderFrom(t, cid, 0) < SLOTS
  {
    HeldInMembers(t[..SLOTS], cid);
    var i := HolderFrom(t, cid, 0);
    if i < SLOTS {
      assert t[..SLOTS][i] == cid;
    }
  }

  lemma StoredRefines(t: seq<int>, cid: int)
    requires Table(t)
    ensures Table(Stored(t, cid)) && Held(Stored(t, cid)) == BagStep(Held(t), Reply(cid))
  {
    HeldSize(t);
    var i := FirstFree(t);
    if cid >= 0 && i < SLOTS {
      HeldInUpdate(t[..SLOTS], i, cid);
      assert t[i := cid][..SLOTS] == t[..SLOTS][i := cid];
      assert One(t[i]) == multiset{};
    }
  }

  lemma ReleasedRefines(t: seq<int>, cid: int)
    requires Table(t)
    ensures Table(Released(t, cid)) && Held(Released(t, cid)) == BagStep(Held(t), Deactivate(cid))
  {
    hide Held;
    var i := HolderFrom(t, cid, 0);
    HeldMembers(t, cid);
    if i == SLOTS || cid < 0 {
      assert Released(t, cid) == t;
      assert Held(t) - multiset{cid} == Held(t);
    } else {
      HeldAfterRelease(t, i);
    }
  }

  lemma HeldAfterRelease(t: seq<int>, i: nat)
    requires |t| == 5 && i < SLOTS && t[i] >= 0
    ensures Held(t[i := -1]) == Held(t) - multiset{t[i]}
  {
    HeldInUpdate(t[..SLOTS], i, -1);
    assert t[i := -1][..SLOTS] == t[..SLOTS][i := -1];
    TakeAway(Held(t[i := -1]), Held(t), One(t[i]), One(-1));
  }

  lemma TakeAway(a: multiset<int>, b: multiset<int>, lost: multiset<int>, nothing: multiset<int>)
    requires a + lost == b + nothing && nothing == multiset{}
    ensures a == b - lost
  {
    assert b == a + lost;
  }

  lemma ApplyRefines(t: seq<int>, s: Step)
    requires Table(t)
    ensures Table(Apply(t, s)) && Held(Apply(t, s)) == BagStep(Held(t), s)
  {
    match s
    case Request =>
    case Reply(cid) => StoredRefines(t, cid);
    case Deactivate(cid) => ReleasedRefines(t, cid);
  }

  /** Every run of requests, replies and deactivations, in any order, keeps the table shape
      (the fifth cell stays -1) and holds exactly what the bag holds. */
  lemma {:induction false} RunRefines(t: seq<int>, steps: seq<Step>)
    requires Table(t)
    ensures Table(Run(t, steps)) && Held(Run(t, steps)) == BagRun(Held(t), steps)
    decreases steps
  {
    if steps != [] {
      ApplyRefines(t, steps[0]);
      RunRefines(Apply(t, steps[0]), steps[1..]);
    }
  }

  // ----- conservation -----

  function AcceptedNow(t: seq<int>, s: Step): multiset<int>
    requires |t| == 5
  {
    if s.Reply? && Advertised(t) != 0 then One(s.cid) else multiset{}
  }

  function HitNow(t: seq<int>, s: Step): multiset<int>
    requires |t| == 5
  {
    if s.Deactivate? && s.cid in Held(t) then multiset{s.cid} else multiset{}
  }

  /** Call ids of the replies that found room, and of the deactivations that found the call. */
  function Accepted(t: seq<int>, steps: seq<Step>): multiset<int>
    requires |t| == 5
    decreases steps
  {
    if steps == [] then multiset{}
    else AcceptedNow(t, steps[0]) + Accepted(Apply(t, steps[0]), steps[1..])
  }

  function Hits(t: seq<int>, steps: seq<Step>): multiset<int>
    requires |t| == 5
    decreases steps
  {
    if steps == [] then multiset{}
    else HitNow(t, steps[0]) + Hits(Apply(t, steps[0]), steps[1..])
  }

  lemma StepConserves(t: seq<int>, s: Step)
    requires Table(t)
    ensures Held(t) + AcceptedNow(t, s) == Held(Apply(t, s)) + HitNow(t, s)
  {
    hide Held, Apply;
    ApplyRefines(t, s);
    HeldSize(t);
  }

  /** No call id is lost or invented: those held at the start plus those accepted are those
      held at the end plus those deactivated. */
  lemma {:induction false} Conservation(t: seq<int>, steps: seq<Step>)
    requires Table(t)
    ensures Held(t) + Accepted(t, steps) == Held(Run(t, steps)) + Hits(t, steps)
    decreases steps
  {
    hide Held, Apply, AcceptedNow, HitNow;
    if steps != [] {
      var t', rest := Apply(t, steps[0]), steps[1..];
      ApplyRefines(t, steps[0]);
      StepConserves(t, steps[0]);
      Conservation(t', rest);
      Balance2(Held(t), AcceptedNow(t, steps[0]), Held(t'), HitNow(t, steps[0]), Accepted(t', rest), Held(Run(t', rest)), Hits(t', rest));
    }
  }

  lemma Balance2(a: multiset<int>, gained: multiset<int>, b: multiset<int>, lost: multiset<int>,
                 later: multiset<int>, c: multiset<int>, laterLost: multiset<int>)
    requires a + gained == b + lost && b + later == c + laterLost
    ensures a + (gained + later) == c + (lost + laterLost)
  {
    assert a + (gained + later) == (a + gained) + later;
    assert (b + lost) + later == (b + later) + lost;
    assert (c + laterLost) + lost == c + (lost + laterLost);
  }

  /** Id 0 is sent exactly when four calls are held, and a reply then changes nothing. */
  lemma FullTable(t: seq<int>, cid: int)
    requires Table(t)
    ensures Advertised(t) == 0 <==> |Held(t)| == SLOTS
    ensures |Held(t)| == SLOTS ==> Stored(t, cid) == t
  {
    HeldSize(t);
  }

  // ----- the advertised id -----

  /** A request, a reply that stores nothing, or a deactivation that frees no cell before the
      first free one. */
  predicate Harmless(t: seq<int>, s: Step)
    requires |t| == 5
  {
    match s
    case Request => true
    case Reply(cid) => cid < 0 || |Held(t)| == SLOTS
    case Deactivate(cid) => cid < 0 || HolderFrom(t, cid, 0) >= FirstFree(t)
  }

  /** A step leaves the id that would be advertised next alone exactly when it is harmless. */
  lemma KeepsAdvertised(t: seq<int>, s: Step)
    requires Table(t)
    ensures Advertised(Apply(t, s)) == Advertised(t) <==> Harmless(t, s)
  {
    HeldSize(t);
    var t', f := Apply(t, s), FirstFree(t);
    match s
    case Request =>
    case Reply(cid) =>
    case Deactivate(cid) =>
      var i := HolderFrom(t, cid, 0);
      if i < SLOTS {
        if cid < 0 {
          assert t' == t;
        } else if i < f {
          assert t'[i] < 0;
          assert FirstFree(t') <= i;
        } else {
          assert FirstFree(t') == f;
        }
      }
  }

  /** The protocol state beside the table: the id sent with the outstanding request, and the
      live calls under the ids they were requested with. */
  datatype Session = Session(table: seq<int>, outstanding: Outstanding, live: map<nat, int>)
  datatype Outstanding = Nothing | Sent(id: nat)

  /** The lowest id under which `cid` is live, 0 when it is not. */
  function LiveId(live: map<nat, int>, cid: int, id: nat): (r: nat)
    requires 1 <= id <= 5
    ensures r == 0 || (id <= r <= 4 && r in live && live[r] == cid)
    decreases 5 - id
  {
    if id == 5 then 0 else if id in live && live[id] == cid then id else LiveId(live, cid, id + 1)
  }

  /** A session step; the ledger of live calls never looks at the table. */
  function SessionStep(x: Session, s: Step): Session
    requires |x.table| == 5
  {
    match s
    case Request => x.(outstanding := Sent(Advertised(x.table)))
    case Reply(cid) =>
      Session(Apply(x.table, s), Nothing,
              if cid >= 0 && x.outstanding.Sent? && x.outstanding.id != 0 then x.live[x.outstanding.id := cid] else x.live)
    case Deactivate(cid) =>
      Session(Apply(x.table, s), x.outstanding,
              if LiveId(x.live, cid, 1) != 0 then x.live - {LiveId(x.live, cid, 1)} else x.live)
  }

  function SessionRun(x: Session, steps: seq<Step>): (y: Session)
    requires |x.table| == 5
    ensures |y.table| == 5
    decreases steps
  {
    if steps == [] then x else SessionRun(SessionStep(x, steps[0]), steps[1..])
  }

  /** At most one setup is outstanding, and nothing is deactivated while it is. */
  predicate Disciplined(pending: bool, steps: seq<Step>)
    decreases steps
  {
    steps == [] ||
    match steps[0]
    case Request => !pending && Disciplined(true, steps[1..])
    case Reply(_) => pending && Disciplined(false, steps[1..])
    case Deactivate(_) => !pending && Disciplined(false, steps[1..])
  }

  ghost predicate MirrorAt(t: seq<int>, live: map<nat, int>, id: nat)
    requires |t| == 5 && 1 <= id <= SLOTS
  {
    if id in live then live[id] == t[id - 1] >= 0 else t[id - 1] == -1
  }

  /** Each live call sits in the cell its request announced and each held cell is live; the
      outstanding request still announces the first free cell. */
  ghost predicate Agrees(x: Session) {
    && Table(x.table)
    && (forall id :: id in x.live ==> 1 <= id <= SLOTS)
    && (forall id :: 1 <= id <= SLOTS ==> MirrorAt(x.table, x.live, id))
    && (x.outstanding.Sent? ==> x.outstanding.id == Advertised(x.table))
  }

  lemma {:induction false} LiveIdIsHolder(x: Session, cid: int, id: nat)
    requires Agrees(x) && cid >= 0 && 1 <= id <= 5
    ensures var i := HolderFrom(x.table, cid, id - 1);
            LiveId(x.live, cid, id) == if i < SLOTS then i + 1 else 0
    decreases 5 - id
  {
    if id < 5 {
      assert MirrorAt(x.table, x.live, id);
      if x.table[id - 1] != cid {
        LiveIdIsHolder(x, cid, id + 1);
      }
    }
  }

  lemma ReplyAgrees(x: Session, cid: int)
    requires Agrees(x) && x.outstanding.Sent?
    ensures Agrees(SessionStep(x, Reply(cid)))
  {
    hide Held, BagStep;
    StoredRefines(x.table, cid);
    var f := FirstFree(x.table);
    if cid >= 0 && f < SLOTS {
      MirrorStore(x.table, x.live, f, cid, x.table[f := cid], x.live[f + 1 := cid]);
    }
  }

  lemma MirrorStore(t: seq<int>, live: map<nat, int>, i: nat, cid: int, t': seq<int>, live': map<nat, int>)
    requires |t| == 5 && i < SLOTS && cid >= 0 && forall id :: 1 <= id <= SLOTS ==> MirrorAt(t, live, id)
    requires t' == t[i := cid] && live' == live[i + 1 := cid]
    ensures forall id :: 1 <= id <= SLOTS ==> MirrorAt(t', live', id)
  {
    forall id | 1 <= id <= SLOTS
      ensures MirrorAt(t', live', id)
    {
      assert MirrorAt(t, live, id);
    }
  }

  lemma {:induction false} NoNegativeLive(x: Session, cid: int, id: nat)
    requires Agrees(x) && cid < 0 && 1 <= id <= 5
    ensures LiveId(x.live, cid, id) == 0
    decreases 5 - id
  {
    if id < 5 {
      assert MirrorAt(x.table, x.live, id);
      NoNegativeLive(x, cid, id + 1);
    }
  }

  lemma MirrorRelease(t: seq<int>, live: map<nat, int>, i: nat, t': seq<int>, live': map<nat, int>)
    requires |t| == 5 && i < SLOTS && forall id :: 1 <= id <= SLOTS ==> MirrorAt(t, live, id)
    requires t' == t[i := -1] && live' == live - {i + 1}
    ensures forall id :: 1 <= id <= SLOTS ==> MirrorAt(t', live', id)
  {
    forall id | 1 <= id <= SLOTS
      ensures MirrorAt(t', live', id)
    {
      assert MirrorAt(t, live, id);
    }
  }

  lemma DeactivateAgrees(x: Session, cid: int)
    requires Agrees(x) && !x.outstanding.Sent?
    ensures Agrees(SessionStep(x, Deactivate(cid)))
  {
    var i := HolderFrom(x.table, cid, 0);
    if cid < 0 {
      NoNegativeLive(x, cid, 1);
      assert Released(x.table, cid) == x.table;
    } else {
      LiveIdIsHolder(x, cid, 1);
      if i < SLOTS {
        MirrorRelease(x.table, x.live, i, x.table[i := -1], x.live - {i + 1});
      }
    }
  }

  lemma SessionStepAgrees(x: Session, s: Step)
    requires Agrees(x) && Disciplined(x.outstanding.Sent?, [s])
    ensures Agrees(SessionStep(x, s))
  {
    match s
    case Request =>
    case Reply(cid) => ReplyAgrees(x, cid);
    case Deactivate(cid) => DeactivateAgrees(x, cid);
  }

  /** In every run with at most one setup outstanding and no deactivation meanwhile, the ledger
      kept by announced ids is the table itself at every moment. */
  lemma {:induction false} LedgerIsTable(x: Session, steps: seq<Step>)
    requires Agrees(x) && Disciplined(x.outstanding.Sent?, steps)
    ensures Agrees(SessionRun(x, steps))
    decreases steps
  {
    if steps != [] {
      assert [steps[0]][1..] == [];
      assert Disciplined(x.outstanding.Sent?, [steps[0]]);
      SessionStepAgrees(x, steps[0]);
      LedgerIsTable(SessionStep(x, steps[0]), steps[1..]);
    }
  }

  lemma {:induction false} DisciplinedPrefix(x: Session, steps: seq<Step>, k: nat)
    requires |x.table| == 5 && Disciplined(x.outstanding.Sent?, steps) && k <= |steps|
    ensures Disciplined(x.outstanding.Sent?, steps[..k])
    ensures Disciplined(SessionRun(x, steps[..k]).outstanding.Sent?, steps[k..])
    decreases k
  {
    if k > 0 {
      DisciplinedPrefix(SessionStep(x, steps[0]), steps[1..], k - 1);
      assert steps[..k][1..] == steps[1..][..k - 1] && steps[k..] == steps[1..][k - 1..];
      assert steps[..k][0] == steps[0];
    }
  }

  /** Every successful reply of such a run lands in exactly the cell its request announced, a
      cell that was free and whose id no live call uses; id 0 was announced exactly when the
      reply finds the table full and changes nothing. */
  lemma RepliesLandWhereAnnounced(x: Session, steps: seq<Step>, k: nat, cid: int)
    requires Agrees(x) && Disciplined(x.outstanding.Sent?, steps)
    requires k < |steps| && steps[k] == Reply(cid) && cid >= 0
    ensures var before := SessionRun(x, steps[..k]);
            && before.outstanding.Sent?
            && var id := before.outstanding.id;
               && (id == 0 <==> |Held(before.table)| == SLOTS)
               && (id == 0 ==> Apply(before.table, steps[k]) == before.table)
               && (id != 0 ==>
                     && 1 <= id <= SLOTS && id !in before.live
                     && before.table[id - 1] == -1
                     && Apply(before.table, steps[k]) == before.table[id - 1 := cid])
  {
    hide Held, Disciplined, SessionRun;
    DisciplinedPrefix(x, steps, k);
    LedgerIsTable(x, steps[..k]);
    var before := SessionRun(x, steps[..k]);
    FullTable(before.table, cid);
    assert steps[k..][0] == steps[k];
    if before.outstanding.id != 0 {
      assert MirrorAt(before.table, before.live, before.outstanding.id);
    }
  }

  /** A successful reply after the window lands in the cell announced before it. */
  ghost predicate Lands(t: seq<int>, window: seq<Step>, cid: int)
    requires Table(t) && Advertised(t) != 0
  {
    var cell, now := Advertised(t) - 1, Run(t, window);
    now[cell] == -1 && Stored(now, cid) == now[cell := cid]
  }

  /** Without the discipline: whatever happens between a request and its successful reply, the reply
      lands in the announced cell exactly when that cell is still free and every cell before it
      is held, that is, when the same id would be announced again. */
  lemma LandsExactly(t: seq<int>, window: seq<Step>, cid: int)
    requires Table(t) && Advertised(t) != 0 && cid >= 0
    ensures var cell, now := Advertised(t) - 1, Run(t, window);
            && (Lands(t, window, cid) <==> Advertised(now) == Advertised(t))
            && (Advertised(now) == Advertised(t) <==> now[cell] == -1 && forall j :: 0 <= j < cell ==> now[j] >= 0)
  {
    hide Held, BagRun, Run;
    var cell, now := Advertised(t) - 1, Run(t, window);
    RunRefines(t, window);
    if now[cell] == -1 && Stored(now, cid) == now[cell := cid] {
      assert Stored(now, cid)[cell] != now[cell];
    }
  }

  predicate Successful(s: Step) {
    s.Reply? && s.cid >= 0
  }

  /** How one step moves the first free cell. */
  lemma StepMovesFree(t: seq<int>, s: Step)
    requires Table(t)
    ensures var f, t' := FirstFree(t), Apply(t, s);
            && Table(t')
            && (!s.Deactivate? ==> FirstFree(t') >= f && (f < SLOTS ==> (FirstFree(t') == f <==> !Successful(s))))
            && (!Successful(s) ==>
                  && FirstFree(t') <= f
                  && (FirstFree(t') == f <==> !(s.Deactivate? && s.cid in t[..f]))
                  && (FirstFree(t') == f ==> t'[..f] == t[..f]))
  {
    hide Held, BagStep;
    ApplyRefines(t, s);
    match s
    case Request =>
    case Reply(cid) =>
    case Deactivate(cid) => ReleaseMovesFree(t, cid);
  }

  lemma ReleaseMovesFree(t: seq<int>, cid: int)
    requires Table(t)
    ensures var f, t' := FirstFree(t), Released(t, cid);
            && FirstFree(t') <= f
            && (FirstFree(t') == f <==> cid !in t[..f])
            && (FirstFree(t') == f ==> t'[..f] == t[..f])
  {
    var f, i, t' := FirstFree(t), HolderFrom(t, cid, 0), Released(t, cid);
    if i < f {
      assert t[..f][i] == cid;
      assert t'[i] < 0;
      assert FirstFree(t') <= i;
    } else {
      assert t'[..f] == t[..f];
      assert f < SLOTS ==> t'[f] < 0;
      assert FirstFree(t') == f;
    }
  }

  lemma {:induction false} RepliesFill(t: seq<int>, window: seq<Step>)
    requires Table(t) && forall s <- window :: !s.Deactivate?
    ensures FirstFree(Run(t, window)) >= FirstFree(t)
    ensures FirstFree(t) < SLOTS ==> (FirstFree(Run(t, window)) == FirstFree(t) <==> forall s <- window :: !Successful(s))
    decreases window
  {
    hide FreeFrom, Apply;
    if window != [] {
      StepMovesFree(t, window[0]);
      RepliesFill(Apply(t, window[0]), window[1..]);
      assert window == [window[0]] + window[1..];
    }
  }

  lemma {:induction false} DeactivationsFree(t: seq<int>, window: seq<Step>)
    requires Table(t) && forall s <- window :: !Successful(s)
    ensures FirstFree(Run(t, window)) <= FirstFree(t)
    ensures FirstFree(Run(t, window)) == FirstFree(t) <==> forall s <- window :: s.Deactivate? ==> s.cid !in t[..FirstFree(t)]
    decreases window
  {
    hide FreeFrom, Apply;
    if window != [] {
      StepMovesFree(t, window[0]);
      DeactivationsFree(Apply(t, window[0]), window[1..]);
      assert window == [window[0]] + window[1..];
    }
  }

  /** The condition on the calls: in a window without deactivations the reply lands where announced
      exactly when no earlier reply of the window was successful; in a window without successful
      replies, exactly when no call held before the announced cell was deactivated. */
  lemma LandsOnCalls(t: seq<int>, window: seq<Step>, cid: int)
    requires Table(t) && Advertised(t) != 0 && cid >= 0
    ensures (forall s <- window :: !s.Deactivate?) ==>
              (Lands(t, window, cid) <==> forall s <- window :: !Successful(s))
    ensures (forall s <- window :: !Successful(s)) ==>
              (Lands(t, window, cid) <==> forall s <- window :: s.Deactivate? ==> s.cid !in t[..Advertised(t) - 1])
  {
    hide Lands, FreeFrom, Run;
    LandsExactly(t, window, cid);
    if forall s <- window :: !s.Deactivate? {
      RepliesFill(t, window);
    }
    if forall s <- window :: !Successful(s) {
      DeactivationsFree(t, window);
    }
  }

  /** On every table with a free cell, two setups in flight announce the same id, and of their two
      successful replies only the first lands in the announced cell. */
  lemma TwoOutstandingDisagree(t: seq<int>, a: int, b: int)
    requires Table(t) && Advertised(t) != 0 && a >= 0 && b >= 0
    ensures Advertised(Apply(t, Request)) == Advertised(t)
    ensures var cell := Advertised(t) - 1;
            && Apply(t, Reply(a)) == t[cell := a]
            && Apply(Apply(t, Reply(a)), Reply(b))[cell] == a
            && Advertised(Apply(t, Reply(a))) != Advertised(t)
  {
    StoredRefines(t, a);
  }
}
