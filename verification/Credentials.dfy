/**
 The uid and gid setters.  A call works on a snapshot of the calling task and applies its
 update to every task of the caller's thread group.
 */
module Credentials {
  import opened Wrappers

  const NO_CHANGE: nat := 0xFFFF_FFFF

  type Id = nat

  datatype Ids = Ids(rid: Id, eid: Id, sid: Id)

  datatype Task = Task(tgid: nat, uid: Ids, gid: Ids)

  datatype Request =
    | SetUid(id: Id)
    | SetReUid(r: Id, e: Id)
    | SetResUid(r: Id, e: Id, s: Id)
    | SetGid(id: Id)
    | SetReGid(r: Id, e: Id)
    | SetResGid(r: Id, e: Id, s: Id)

  datatype Status = Success | NotPermitted

  predicate IsUid(q: Request) { q.SetUid? || q.SetReUid? || q.SetResUid? }

  function IdsOf(t: Task, uids: bool): Ids { if uids then t.uid else t.gid }

  function Members(x: Ids): set<Id> { {x.rid, x.eid, x.sid} }

  predicate CanAssume(x: Ids, id: Id) { id == x.rid || id == x.eid || id == x.sid }

  function Requested(id: Id): Option<Id> { if id == NO_CHANGE then None else Some(id) }

  function Or(o: Option<Id>, id: Id): Id { if o.Some? then o.value else id }

  /** What an update does to the ids of one task of the group: `None` leaves a field alone. */
  datatype Update = Update(rid: Option<Id>, eid: Option<Id>, sid: Option<Id>)

  function Updated(x: Ids, u: Update): Ids { Ids(Or(u.rid, x.rid), Or(u.eid, x.eid), Or(u.sid, x.sid)) }

  /** The checks and the update of one call, from the caller's snapshot of the ids concerned. */
  function Decide(q: Request, privileged: bool, x: Ids): Option<Update> {
    match q
    case SetUid(id) => DecideSet(id, privileged, x)
    case SetGid(id) => DecideSet(id, privileged, x)
    case SetReUid(r, e) => DecideSetRe(Requested(r), Requested(e), privileged, x)
    case SetReGid(r, e) => DecideSetRe(Requested(r), Requested(e), privileged, x)
    case SetResUid(r, e, s) => DecideSetRes(Requested(r), Requested(e), Requested(s), privileged, x)
    case SetResGid(r, e, s) => DecideSetRes(Requested(r), Requested(e), Requested(s), privileged, x)
  }

  function DecideSet(id: Id, privileged: bool, x: Ids): Option<Update> {
    if privileged then Some(Update(Some(id), Some(id), Some(id)))
    else if !CanAssume(x, id) then None
    else Some(Update(None, Some(id), None))
  }

  function DecideSetRe(r: Option<Id>, e: Option<Id>, privileged: bool, x: Ids): Option<Update> {
    if !privileged && r.Some? && r.value != x.rid && r.value != x.eid then None
    else if !privileged && e.Some? && !CanAssume(x, e.value) then None
    else
      var nextE := Or(e, x.eid);
      Some(Update(Some(Or(r, x.rid)), Some(nextE), if r.Some? || e.Some? then Some(nextE) else None))
  }

  function DecideSetRes(r: Option<Id>, e: Option<Id>, s: Option<Id>, privileged: bool, x: Ids): Option<Update> {
    if !privileged && ((r.Some? && !CanAssume(x, r.value)) || (e.Some? && !CanAssume(x, e.value))
                       || (s.Some? && !CanAssume(x, s.value))) then None
    else Some(Update(Some(Or(r, x.rid)), Some(Or(e, x.eid)), Some(Or(s, x.sid))))
  }

  function ApplyTo(t: Task, q: Request, tgid: nat, u: Update): Task {
    if t.tgid != tgid then t
    else if IsUid(q) then t.(uid := Updated(t.uid, u))
    else t.(gid := Updated(t.gid, u))
  }

  /** The task list after an update of one thread group. */
  function ApplyAll(tasks: seq<Task>, q: Request, tgid: nat, u: Update): (r: seq<Task>)
    ensures |r| == |tasks|
  {
    seq(|tasks|, i requires 0 <= i < |tasks| => ApplyTo(tasks[i], q, tgid, u))
  }

  /** One call by task number `caller`. */
  function AfterCall(tasks: seq<Task>, caller: nat, q: Request): (r: seq<Task>)
    ensures |r| == |tasks|
  {
    if caller >= |tasks| then tasks
    else
      var me := tasks[caller];
      match Decide(q, me.uid.eid == 0, IdsOf(me, IsUid(q)))
      case None => tasks
      case Some(u) => ApplyAll(tasks, q, me.tgid, u)
  }

  predicate Refused(tasks: seq<Task>, caller: nat, q: Request) {
    caller >= |tasks| || Decide(q, tasks[caller].uid.eid == 0, IdsOf(tasks[caller], IsUid(q))).None?
  }

  class TaskTable {
    var tasks: seq<Task>

    constructor (tasks: seq<Task>)
      ensures this.tasks == tasks
    {
      this.tasks := tasks;
    }

    method ApplyToThreadGroup(q: Request, tgid: nat, u: Update)
      modifies this
      ensures tasks == ApplyAll(old(tasks), q, tgid, u)
    {
      for i := 0 to |tasks|
        invariant |tasks| == |old(tasks)|
        invariant forall k :: 0 <= k < |tasks| ==>
                    tasks[k] == if k < i then ApplyTo(old(tasks)[k], q, tgid, u) else old(tasks)[k]
      {
        tasks := tasks[i := ApplyTo(tasks[i], q, tgid, u)];
      }
      assert tasks == ApplyAll(old(tasks), q, tgid, u);
    }

    /** A setter called by task number `caller`; without a current task it is refused. */
    method Call(caller: nat, q: Request) returns (r: Status)
      modifies this
      ensures tasks == AfterCall(old(tasks), caller, q)
      ensures r == NotPermitted ==> tasks == old(tasks)
      ensures r == NotPermitted <==> Refused(old(tasks), caller, q)
    {
      if caller >= |tasks| {
        return NotPermitted;
      }
      var snapshot := tasks[caller];
      match Decide(q, snapshot.uid.eid == 0, IdsOf(snapshot, IsUid(q))) {
        case None => return NotPermitted;
        case Some(u) =>
          ApplyToThreadGroup(q, snapshot.tgid, u);
          return Success;
      }
    }
  }

  // ---- Theorems ----

  /** All ids of one kind held anywhere in a thread group. */
  function GroupIds(tasks: seq<Task>, tgid: nat, uids: bool): set<Id> {
    set t, id | t in tasks && t.tgid == tgid && id in Members(IdsOf(t, uids)) :: id
  }

  /** Threads of a group agree on their ids. */
  predicate Agree(tasks: seq<Task>, tgid: nat) {
    forall t <- tasks, u <- tasks :: t.tgid == tgid && u.tgid == tgid ==> t.uid == u.uid && t.gid == u.gid
  }

  /** An unprivileged update only moves ids the caller already holds. */
  lemma UnprivilegedUpdate(q: Request, x: Ids)
    ensures Decide(q, false, x).Some? ==>
              var u := Decide(q, false, x).value;
              && (u.rid.Some? ==> u.rid.value in Members(x))
              && (u.eid.Some? ==> u.eid.value in Members(x))
              && (u.sid.Some? ==> u.sid.value in Members(x))
  {
  }

  /** The ids a request names. */
  function Asked(q: Request): set<Id> {
    match q
    case SetUid(id) => {id}
    case SetGid(id) => {id}
    case SetReUid(r, e) => {r, e} - {NO_CHANGE}
    case SetReGid(r, e) => {r, e} - {NO_CHANGE}
    case SetResUid(r, e, s) => {r, e, s} - {NO_CHANGE}
    case SetResGid(r, e, s) => {r, e, s} - {NO_CHANGE}
  }

  /**
   A request is refused exactly when an unprivileged caller names an id it does not hold, or
   asks setreuid/setregid for a real id that is only its saved one.  A granted request leaves
   each id either as it was or as named; the saved id follows the effective one in
   setreuid/setregid unless nothing was named.
   */
  lemma {:induction false} GrantedExactly(q: Request, privileged: bool, x: Ids)
    ensures Decide(q, privileged, x).None? <==>
              !privileged && (!(Asked(q) <= Members(x))
                || ((q.SetReUid? || q.SetReGid?) && q.r != NO_CHANGE && q.r !in {x.rid, x.eid}))
    ensures Decide(q, privileged, x).Some? ==>
              var y := Updated(x, Decide(q, privileged, x).value);
              && Members(y) <= Members(x) + Asked(q)
              && Asked(q) <= Members(y)
              && (q.SetUid? || q.SetGid? ==>
                    && y.eid == q.id
                    && (if privileged then y.rid == y.sid == q.id else y == x.(eid := q.id)))
              && (!q.SetUid? && !q.SetGid? ==>
                    && y.rid == (if q.r == NO_CHANGE then x.rid else q.r)
                    && y.eid == (if q.e == NO_CHANGE then x.eid else q.e))
              && (q.SetReUid? || q.SetReGid? ==> y.sid == if Asked(q) == {} then x.sid else y.eid)
              && (q.SetResUid? || q.SetResGid? ==> y.sid == if q.s == NO_CHANGE then x.sid else q.s)
  {
    if q.SetUid? || q.SetGid? {
      assert q.id in Asked(q);
    } else {
      assert q.r != NO_CHANGE ==> q.r in Asked(q);
      assert q.e != NO_CHANGE ==> q.e in Asked(q);
      assert q.SetResUid? || q.SetResGid? ==> (q.s != NO_CHANGE ==> q.s in Asked(q));
    }
  }

  /** Whom a call is refused to: nobody who is privileged, and otherwise by the ids of the request's kind. */
  lemma RefusedExactly(tasks: seq<Task>, caller: nat, q: Request)
    ensures Refused(tasks, caller, q) <==>
              caller >= |tasks|
              || var me := tasks[caller];
                 me.uid.eid != 0 &&
                 match q
                 case SetUid(id) => id !in {me.uid.rid, me.uid.eid, me.uid.sid}
                 case SetGid(id) => id !in {me.gid.rid, me.gid.eid, me.gid.sid}
                 case SetReUid(r, e) =>
                   || r !in {0xFFFF_FFFF, me.uid.rid, me.uid.eid}
                   || e !in {0xFFFF_FFFF, me.uid.rid, me.uid.eid, me.uid.sid}
                 case SetReGid(r, e) =>
                   || r !in {0xFFFF_FFFF, me.gid.rid, me.gid.eid}
                   || e !in {0xFFFF_FFFF, me.gid.rid, me.gid.eid, me.gid.sid}
                 case SetResUid(r, e, s) => !({r, e, s} <= {0xFFFF_FFFF, me.uid.rid, me.uid.eid, me.uid.sid})
                 case SetResGid(r, e, s) => !({r, e, s} <= {0xFFFF_FFFF, me.gid.rid, me.gid.eid, me.gid.sid})
  {
  }

  /**
   What a granted call stores in each task of the caller's thread group, field by field.  Setuid and
   setgid without privilege, and the saved id when setreuid or setregid names nothing, leave the task's
   own values; everything else comes from the request or from the caller.
   */
  lemma StoredIds(tasks: seq<Task>, caller: nat, q: Request, i: nat)
    requires caller < |tasks| && i < |tasks| && tasks[i].tgid == tasks[caller].tgid && !Refused(tasks, caller, q)
    ensures var me, t, n := tasks[caller], tasks[i], AfterCall(tasks, caller, q)[i];
            n.tgid == t.tgid &&
            match q
            case SetUid(id) =>
              n.gid == t.gid && n.uid == if me.uid.eid == 0 then Ids(id, id, id) else Ids(t.uid.rid, id, t.uid.sid)
            case SetGid(id) =>
              n.uid == t.uid && n.gid == if me.uid.eid == 0 then Ids(id, id, id) else Ids(t.gid.rid, id, t.gid.sid)
            case SetReUid(r, e) =>
              && n.gid == t.gid
              && n.uid.rid == (if r == 0xFFFF_FFFF then me.uid.rid else r)
              && n.uid.eid == (if e == 0xFFFF_FFFF then me.uid.eid else e)
              && n.uid.sid == (if r == 0xFFFF_FFFF && e == 0xFFFF_FFFF then t.uid.sid
                               else if e == 0xFFFF_FFFF then me.uid.eid else e)
            case SetReGid(r, e) =>
              && n.uid == t.uid
              && n.gid.rid == (if r == 0xFFFF_FFFF then me.gid.rid else r)
              && n.gid.eid == (if e == 0xFFFF_FFFF then me.gid.eid else e)
              && n.gid.sid == (if r == 0xFFFF_FFFF && e == 0xFFFF_FFFF then t.gid.sid
                               else if e == 0xFFFF_FFFF then me.gid.eid else e)
            case SetResUid(r, e, s) =>
              && n.gid == t.gid
              && n.uid.rid == (if r == 0xFFFF_FFFF then me.uid.rid else r)
              && n.uid.eid == (if e == 0xFFFF_FFFF then me.uid.eid else e)
              && n.uid.sid == (if s == 0xFFFF_FFFF then me.uid.sid else s)
            case SetResGid(r, e, s) =>
              && n.uid == t.uid
              && n.gid.rid == (if r == 0xFFFF_FFFF then me.gid.rid else r)
              && n.gid.eid == (if e == 0xFFFF_FFFF then me.gid.eid else e)
              && n.gid.sid == (if s == 0xFFFF_FFFF then me.gid.sid else s)
  {
  }

  /**
   A caller without privilege gives its thread group no id, of either kind, that the group
   did not hold before, and no other group any id at all.
   */
  lemma UnprivilegedGainsNothing(tasks: seq<Task>, caller: nat, q: Request, tgid: nat, uids: bool)
    requires caller < |tasks| && tasks[caller].uid.eid != 0
    ensures GroupIds(AfterCall(tasks, caller, q), tgid, uids) <= GroupIds(tasks, tgid, uids)
  {
    var me, r := tasks[caller], AfterCall(tasks, caller, q);
    UnprivilegedUpdate(q, IdsOf(me, IsUid(q)));
    forall t, id | t in r && t.tgid == tgid && id in Members(IdsOf(t, uids))
      ensures id in GroupIds(tasks, tgid, uids)
    {
      var i :| 0 <= i < |r| && r[i] == t;
      assert tasks[i] in tasks && tasks[i].tgid == tgid;
      assert me in tasks;
      if id !in Members(IdsOf(tasks[i], uids)) {
        assert me.tgid == tgid && id in Members(IdsOf(me, uids));
      }
    }
  }

  /** A call changes no thread group but the caller's. */
  lemma OtherGroupsKept(tasks: seq<Task>, caller: nat, q: Request, i: nat)
    requires caller < |tasks| && i < |tasks| && tasks[i].tgid != tasks[caller].tgid
    ensures AfterCall(tasks, caller, q)[i] == tasks[i]
  {
  }

  function Run(tasks: seq<Task>, calls: seq<(nat, Request)>): (r: seq<Task>)
    ensures |r| == |tasks|
  {
    if calls == [] then tasks
    else AfterCall(Run(tasks, calls[..|calls| - 1]), calls[|calls| - 1].0, calls[|calls| - 1].1)
  }

  lemma {:induction false} GroupsAreFixed(tasks: seq<Task>, calls: seq<(nat, Request)>)
    ensures forall i :: 0 <= i < |tasks| ==> Run(tasks, calls)[i].tgid == tasks[i].tgid
  {
    if calls != [] {
      GroupsAreFixed(tasks, calls[..|calls| - 1]);
    }
  }

  /**
   Privilege given up is gone for good: once no thread of a group holds uid 0 in any of its
   three uids, no sequence of calls by any tasks brings it back; and whatever ids of either kind
   the group holds later it held then.
   */
  lemma {:induction false} DroppedPrivilegeStaysDropped(tasks: seq<Task>, calls: seq<(nat, Request)>, tgid: nat,
                                                        uids: bool)
    requires 0 !in GroupIds(tasks, tgid, true)
    ensures 0 !in GroupIds(Run(tasks, calls), tgid, true)
    ensures GroupIds(Run(tasks, calls), tgid, uids) <= GroupIds(tasks, tgid, uids)
  {
    if calls != [] {
      var before, caller, q := Run(tasks, calls[..|calls| - 1]), calls[|calls| - 1].0, calls[|calls| - 1].1;
      DroppedPrivilegeStaysDropped(tasks, calls[..|calls| - 1], tgid, uids);
      if caller < |before| {
        if before[caller].tgid == tgid {
          assert before[caller] in before && before[caller].uid.eid in Members(IdsOf(before[caller], true));
          assert before[caller].uid.eid in GroupIds(before, tgid, true);
          UnprivilegedGainsNothing(before, caller, q, tgid, true);
          UnprivilegedGainsNothing(before, caller, q, tgid, uids);
        } else {
          OtherGroupIds(before, caller, q, tgid, true);
          OtherGroupIds(before, caller, q, tgid, uids);
        }
      }
    }
  }

  lemma OtherGroupIds(tasks: seq<Task>, caller: nat, q: Request, tgid: nat, uids: bool)
    requires caller < |tasks| && tasks[caller].tgid != tgid
    ensures GroupIds(AfterCall(tasks, caller, q), tgid, uids) == GroupIds(tasks, tgid, uids)
  {
  }

  /** Threads of a group that agree on their credentials keep agreeing. */
  lemma {:induction false} AgreementKept(tasks: seq<Task>, calls: seq<(nat, Request)>, tgid: nat)
    requires Agree(tasks, tgid)
    ensures Agree(Run(tasks, calls), tgid)
  {
    if calls != [] {
      var before, r := Run(tasks, calls[..|calls| - 1]), Run(tasks, calls);
      AgreementKept(tasks, calls[..|calls| - 1], tgid);
      forall t, u | t in r && u in r && t.tgid == tgid && u.tgid == tgid
        ensures t.uid == u.uid && t.gid == u.gid
      {
        var i :| 0 <= i < |r| && r[i] == t;
        var j :| 0 <= j < |r| && r[j] == u;
        assert before[i] in before && before[j] in before;
      }
    }
  }
}
