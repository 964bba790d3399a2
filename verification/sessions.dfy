/** Per-user session segmentation: each click joins its user's latest session or opens a
    new one, by inactivity gap or by calendar day. */
module Sessions {
  import opened Wrappers
  import opened Seqs
  import opened Events

  /** The segmentation rule. It is static configuration in the system, so every extractor
      of a run applies the same rule; here it is a parameter of every step.
      `CalendarDay` carries the calendar's same-day test, which is left abstract. */
  datatype SessionRule = Inactivity(thresholdMs: int) | CalendarDay(sameDay: (int, int) -> bool)

  type Session = seq<Click>

  /** Every user's sessions, oldest first. */
  datatype Extractor = Extractor(sessions: map<int, seq<Session>>)

  function Empty(): Extractor {
    Extractor(map[])
  }

  /** Every stored user has at least one session and no session is empty. */
  ghost predicate Valid(e: Extractor) {
    forall u :: u in e.sessions ==>
      |e.sessions[u]| > 0 && forall i :: 0 <= i < |e.sessions[u]| ==> |e.sessions[u][i]| > 0
  }

  /** Does a click at `t` belong to the session whose latest click was at `last`? */
  predicate Continues(rule: SessionRule, last: int, t: int) {
    match rule
    case Inactivity(threshold) => t - last <= threshold
    case CalendarDay(sameDay) => sameDay(last, t)
  }

  /** `addClick`: the result is the extractor after the click and the session the click
      went to. */
  function AddClick(e: Extractor, rule: SessionRule, t: Click): (r: (Extractor, Session))
    requires Valid(e)
    ensures Valid(r.0)
    ensures t.userId in r.0.sessions
    ensures var ss := r.0.sessions[t.userId]; r.1 == ss[|ss| - 1] && r.1[|r.1| - 1] == t
    ensures forall u :: u != t.userId ==> (u in r.0.sessions <==> u in e.sessions)
    ensures forall u :: u != t.userId && u in e.sessions ==> r.0.sessions[u] == e.sessions[u]
    ensures t.userId !in e.sessions ==> r.0.sessions[t.userId] == [[t]]
    ensures t.userId in e.sessions ==>
      var ss := e.sessions[t.userId];
      var last := ss[|ss| - 1];
      var ss' := r.0.sessions[t.userId];
      if Continues(rule, last[|last| - 1].timestamp, t.timestamp)
      then |ss'| == |ss| && ss'[..|ss| - 1] == ss[..|ss| - 1] && ss'[|ss| - 1] == last + [t]
      else ss' == ss + [[t]]
  {
    var u := t.userId;
    if u !in e.sessions then
      (Extractor(e.sessions[u := [[t]]]), [t])
    else
      var ss := e.sessions[u];
      var last := ss[|ss| - 1];
      if Continues(rule, last[|last| - 1].timestamp, t.timestamp) then
        var grown := last + [t];
        var ss' := ss[..|ss| - 1] + [grown];
        (Extractor(e.sessions[u := ss']), grown)
      else
        (Extractor(e.sessions[u := ss + [[t]]]), [t])
  }

  /** `getSession`: the first of the user's sessions that holds `t`, or `None`. The user must
      be known; the source dereferences the user's session list. */
  function GetSession(e: Extractor, t: Click): (r: Option<Session>)
    requires t.userId in e.sessions
    ensures r.Some? <==> exists i :: 0 <= i < |e.sessions[t.userId]| && t in e.sessions[t.userId][i]
    ensures r.Some? ==> exists i :: 0 <= i < |e.sessions[t.userId]| && r.value == e.sessions[t.userId][i]
                                    && t in r.value
                                    && forall j :: 0 <= j < i ==> t !in e.sessions[t.userId][j]
  {
    FirstContaining(e.sessions[t.userId], t)
  }

  function FirstContaining(ss: seq<Session>, t: Click): (r: Option<Session>)
    ensures r.Some? <==> exists i :: 0 <= i < |ss| && t in ss[i]
    ensures r.Some? ==> exists i :: 0 <= i < |ss| && r.value == ss[i] && t in r.value
                                    && forall j :: 0 <= j < i ==> t !in ss[j]
  {
    if |ss| == 0 then None
    else if t in ss[0] then Some(ss[0])
    else
      var r := FirstContaining(ss[1..], t);
      assert forall i :: 0 < i < |ss| ==> ss[i] == ss[1..][i - 1];
      r
  }

  /** Sessions written one after another. */
  function Flatten(ss: seq<Session>): (r: seq<Click>)
    ensures forall i, x :: 0 <= i < |ss| && x in ss[i] ==> x in r
  {
    if |ss| == 0 then [] else ss[0] + Flatten(ss[1..])
  }

  lemma {:induction false} FlattenMember(ss: seq<Session>, x: Click)
    requires x in Flatten(ss)
    ensures exists i :: 0 <= i < |ss| && x in ss[i]
  {
    if x !in ss[0] {
      FlattenMember(ss[1..], x);
      var i :| 0 <= i < |ss[1..]| && x in ss[1..][i];
      assert x in ss[i + 1];
    }
  }

  lemma {:induction false} FlattenSnoc(ss: seq<Session>, s: Session)
    ensures Flatten(ss + [s]) == Flatten(ss) + s
  {
    if |ss| == 0 {
      assert ss + [s] == [s];
    } else {
      assert (ss + [s])[1..] == ss[1..] + [s];
      FlattenSnoc(ss[1..], s);
    }
  }

  /** A user's clicks among `clicks`, in order. */
  function OfUser(clicks: seq<Click>, u: int): (r: seq<Click>)
    ensures forall i :: 0 <= i < |r| ==> r[i].userId == u
  {
    if |clicks| == 0 then []
    else (if clicks[0].userId == u then [clicks[0]] else []) + OfUser(clicks[1..], u)
  }

  lemma {:induction false} OfUserSnoc(clicks: seq<Click>, c: Click, u: int)
    ensures OfUser(clicks + [c], u) == OfUser(clicks, u) + (if c.userId == u then [c] else [])
  {
    if |clicks| == 0 {
      assert clicks + [c] == [c];
    } else {
      assert (clicks + [c])[1..] == clicks[1..] + [c];
      OfUserSnoc(clicks[1..], c, u);
    }
  }

  /** A user's clicks so far, as the extractor holds them. */
  function Stored(e: Extractor, u: int): seq<Click> {
    if u in e.sessions then Flatten(e.sessions[u]) else []
  }

  /** Feeding clicks one after another. */
  function AddAll(e: Extractor, rule: SessionRule, clicks: seq<Click>): (r: Extractor)
    requires Valid(e)
    ensures Valid(r)
    decreases |clicks|
  {
    if |clicks| == 0 then e
    else AddClick(AddAll(e, rule, clicks[..|clicks| - 1]), rule, clicks[|clicks| - 1]).0
  }

  /** One click appends itself to its user's stored clicks and leaves the others alone. */
  lemma AddClickStored(e: Extractor, rule: SessionRule, t: Click, u: int)
    requires Valid(e)
    ensures Stored(AddClick(e, rule, t).0, u) == Stored(e, u) + (if t.userId == u then [t] else [])
  {
    var e' := AddClick(e, rule, t).0;
    if u == t.userId && u in e.sessions {
      var ss := e.sessions[u];
      var last := ss[|ss| - 1];
      var init := ss[..|ss| - 1];
      assert ss == init + [last];
      FlattenSnoc(init, last);
      if Continues(rule, last[|last| - 1].timestamp, t.timestamp) {
        assert e'.sessions[u] == init + [last + [t]];
        FlattenSnoc(init, last + [t]);
      } else {
        FlattenSnoc(ss, [t]);
      }
    } else if u == t.userId {
      assert Flatten([[t]]) == [t];
    }
  }

  /** Invariant: every user's sessions, written one after another, are exactly that user's
      clicks in the order they were fed. */
  lemma {:induction false} SessionsPartitionClicks(rule: SessionRule, clicks: seq<Click>, u: int)
    ensures Stored(AddAll(Empty(), rule, clicks), u) == OfUser(clicks, u)
    decreases |clicks|
  {
    if |clicks| > 0 {
      var init := clicks[..|clicks| - 1];
      var c := clicks[|clicks| - 1];
      SessionsPartitionClicks(rule, init, u);
      AddClickStored(AddAll(Empty(), rule, init), rule, c, u);
      assert clicks == init + [c];
      OfUserSnoc(init, c, u);
    }
  }

  /** Every fed click can be found again: `GetSession` succeeds on it. */
  lemma FedClickFound(rule: SessionRule, clicks: seq<Click>, t: Click)
    requires t in clicks
    ensures t.userId in AddAll(Empty(), rule, clicks).sessions
    ensures GetSession(AddAll(Empty(), rule, clicks), t).Some?
  {
    var e := AddAll(Empty(), rule, clicks);
    SessionsPartitionClicks(rule, clicks, t.userId);
    OfUserMember(clicks, t);
    assert t in Stored(e, t.userId);
    FlattenMember(e.sessions[t.userId], t);
  }

  lemma {:induction false} OfUserMember(clicks: seq<Click>, t: Click)
    requires t in clicks
    ensures t in OfUser(clicks, t.userId)
  {
    if clicks[0] != t {
      OfUserMember(clicks[1..], t);
    }
  }
}
