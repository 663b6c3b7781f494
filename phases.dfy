/** What each phase of a daily cycle does, as functions of the phase's inputs:
    the candidates and items the platform returned, and the outcome of every
    platform call (an answer, or an exception the phase catches). The
    methods of `InstagramBot.Bot` are proved to compute exactly these, and
    the lemmas here state what the phases promise. */
module Phases {
  import opened Wrappers
  import opened Timestamps
  import opened FollowStore
  import opened Triggers

  function Min(a: nat, b: nat): nat {
    if a <= b then a else b
  }

  /** What the client returns when asked for at most `amount` items: the
      first ones of the full list. */
  function Take<T>(s: seq<T>, amount: nat): (r: seq<T>)
    ensures |r| == Min(|s|, amount) && r == s[..|r|]
  {
    if |s| <= amount then s else s[..amount]
  }

  /** Where a phase that changes the followed-users table stands: the table,
      the state file and the phase's own counter. */
  datatype Progress = Progress(table: Table, disk: Disk, count: nat)

  // ----------------------------------------------------------- follow_users

  /** A follower of the target account as the client lists it. */
  datatype Candidate = Candidate(pk: string, username: string, isFollowed: bool, isPrivate: bool)

  /** How `user_follow` ended for one candidate: it succeeded, at the time
      `datetime.now()` then gave, and the save that followed ended with
      `save`; or it raised. */
  datatype FollowReply = Followed(at: Stamp, save: SaveResult) | FollowRaised

  /** How many more followers than the limit are fetched, to make up for
      ineligible ones. */
  const FollowOverfetch: nat := 10

  /** Not already followed and not private. */
  predicate Eligible(c: Candidate) {
    !c.isFollowed && !c.isPrivate
  }

  /** One turn of the follow loop. The counter is checked before the
      candidate is looked at; an ineligible candidate or a follow that raises
      changes nothing; a successful follow records exactly `pk -> at`, counts
      it and saves the table. */
  function FollowStep(p: Progress, limit: nat, c: Candidate, reply: FollowReply): (r: Progress)
    requires Tracks(p.table)
    ensures Tracks(r.table)
    ensures r.count == p.count + 1 <==> p.count < limit && Eligible(c) && reply.Followed?
    ensures r.count != p.count + 1 ==> r == p
    ensures r.count == p.count + 1 ==>
      && r.table.followed == p.table.followed[c.pk := reply.at]
      && r.disk == Save(r.table, p.disk, reply.save)
  {
    if p.count >= limit || !Eligible(c) then p
    else
      match reply
      case FollowRaised => p
      case Followed(at, save) =>
        PutSpec(p.table, c.pk, at);
        var t := Put(p.table, c.pk, at);
        Progress(t, Save(t, p.disk, save), p.count + 1)
  }

  /** The follow loop over `cands`, `replies[i]` being the outcome of
      following `cands[i]`. */
  function Follows(p: Progress, limit: nat, cands: seq<Candidate>, replies: seq<FollowReply>): (r: Progress)
    requires Tracks(p.table) && |replies| == |cands|
    ensures Tracks(r.table)
    decreases |cands|
  {
    if cands == [] then p
    else Follows(FollowStep(p, limit, cands[0], replies[0]), limit, cands[1..], replies[1..])
  }

  /** `follow_users`: the counter starts at 0 and the loop runs over the
      first `limit + 10` followers of the chosen account. */
  function FollowPhase(t: Table, disk: Disk, limit: nat, pool: seq<Candidate>, replies: seq<FollowReply>): Progress
    requires Tracks(t) && |replies| == |pool|
  {
    var n := limit + FollowOverfetch;
    Follows(Progress(t, disk, 0), limit, Take(pool, n), Take(replies, n))
  }

  /** The number of candidates that are eligible and whose follow succeeds. */
  function FollowableCount(cands: seq<Candidate>, replies: seq<FollowReply>): (n: nat)
    requires |replies| == |cands|
    ensures n <= |cands|
  {
    if cands == [] then 0
    else
      var here := if Eligible(cands[0]) && replies[0].Followed? then 1 else 0;
      here + FollowableCount(cands[1..], replies[1..])
  }

  /** Once the counter has reached the limit, the rest of the loop does nothing. */
  lemma {:induction false} FollowsSaturated(p: Progress, limit: nat, cands: seq<Candidate>, replies: seq<FollowReply>)
    requires Tracks(p.table) && |replies| == |cands| && p.count >= limit
    ensures Follows(p, limit, cands, replies) == p
    decreases |cands|
  {
    if cands != [] {
      FollowsSaturated(p, limit, cands[1..], replies[1..]);
    }
  }

  /** The loop follows exactly `min(limit, count + successes)` users: it
      stops at the limit, and below it every eligible candidate whose follow
      succeeds is counted. */
  lemma {:induction false} FollowsCount(p: Progress, limit: nat, cands: seq<Candidate>, replies: seq<FollowReply>)
    requires Tracks(p.table) && |replies| == |cands| && p.count <= limit
    ensures Follows(p, limit, cands, replies).count == Min(limit, p.count + FollowableCount(cands, replies))
    decreases |cands|
  {
    if cands != [] {
      var q := FollowStep(p, limit, cands[0], replies[0]);
      FollowsCount(q, limit, cands[1..], replies[1..]);
    }
  }

  /** Some candidate of `cands` with key `k` was eligible and its follow
      succeeded at time `at`. */
  predicate FollowedIn(cands: seq<Candidate>, replies: seq<FollowReply>, k: string, at: Stamp)
    requires |replies| == |cands|
  {
    exists i :: 0 <= i < |cands| && cands[i].pk == k && Eligible(cands[i])
                && replies[i].Followed? && replies[i].at == at
  }

  lemma FollowedInTail(cands: seq<Candidate>, replies: seq<FollowReply>, k: string, at: Stamp)
    requires |replies| == |cands| && cands != []
    requires FollowedIn(cands[1..], replies[1..], k, at)
    ensures FollowedIn(cands, replies, k, at)
  {
    var i :| 0 <= i < |cands| - 1 && cands[1..][i].pk == k && Eligible(cands[1..][i])
             && replies[1..][i].Followed? && replies[1..][i].at == at;
    assert cands[i + 1] == cands[1..][i] && replies[i + 1] == replies[1..][i];
  }

  /** The follow loop only adds or refreshes entries: no key is removed, and
      every key whose entry is new or changed belongs to an eligible
      candidate whose follow succeeded, with that follow's time. If nothing
      was counted, nothing changed at all. */
  lemma {:induction false} FollowsTable(p: Progress, limit: nat, cands: seq<Candidate>, replies: seq<FollowReply>)
    requires Tracks(p.table) && |replies| == |cands|
    ensures var r := Follows(p, limit, cands, replies);
      && p.table.followed.Keys <= r.table.followed.Keys
      && (forall k :: k in r.table.followed && (k !in p.table.followed || r.table.followed[k] != p.table.followed[k]) ==>
            FollowedIn(cands, replies, k, r.table.followed[k]))
      && (r.count == p.count ==> r == p)
    decreases |cands|
  {
    if cands != [] {
      var q := FollowStep(p, limit, cands[0], replies[0]);
      FollowsTable(q, limit, cands[1..], replies[1..]);
      var r := Follows(q, limit, cands[1..], replies[1..]);
      forall k | k in r.table.followed && (k !in p.table.followed || r.table.followed[k] != p.table.followed[k])
        ensures FollowedIn(cands, replies, k, r.table.followed[k])
      {
        if k in q.table.followed && r.table.followed[k] == q.table.followed[k] {
          assert cands[0].pk == k && Eligible(cands[0]) && replies[0].Followed? && replies[0].at == r.table.followed[k];
        } else {
          FollowedInTail(cands, replies, k, r.table.followed[k]);
        }
      }
      if r.count == p.count {
        FollowsCounterGrows(q, limit, cands[1..], replies[1..]);
      }
    }
  }

  lemma {:induction false} FollowsCounterGrows(p: Progress, limit: nat, cands: seq<Candidate>, replies: seq<FollowReply>)
    requires Tracks(p.table) && |replies| == |cands|
    ensures Follows(p, limit, cands, replies).count >= p.count
    decreases |cands|
  {
    if cands != [] {
      FollowsCounterGrows(FollowStep(p, limit, cands[0], replies[0]), limit, cands[1..], replies[1..]);
    }
  }

  /** If the file was in step with the table and every save succeeds, it is
      still in step when the loop ends. */
  lemma {:induction false} FollowsSync(p: Progress, limit: nat, cands: seq<Candidate>, replies: seq<FollowReply>)
    requires Tracks(p.table) && |replies| == |cands| && InSync(p.table, p.disk)
    requires forall reply :: reply in replies && reply.Followed? ==> reply.save == Written
    ensures var r := Follows(p, limit, cands, replies); InSync(r.table, r.disk)
    decreases |cands|
  {
    if cands != [] {
      var q := FollowStep(p, limit, cands[0], replies[0]);
      if q.count == p.count + 1 {
        assert replies[0] in replies;
        SaveSpec(q.table, p.disk, Written);
      }
      assert forall reply :: reply in replies[1..] ==> reply in replies;
      FollowsSync(q, limit, cands[1..], replies[1..]);
    }
  }

  /** What one `follow_users` call promises: at most `limit` follows, exactly
      as many as there are followable candidates among the first
      `limit + 10` up to the limit; old entries are kept; every new or
      refreshed entry is that of a followable candidate among the first
      `limit + 10`, with its follow time. */
  lemma FollowPhaseSpec(t: Table, disk: Disk, limit: nat, pool: seq<Candidate>, replies: seq<FollowReply>)
    requires Tracks(t) && |replies| == |pool|
    ensures var n := limit + FollowOverfetch;
      var r := FollowPhase(t, disk, limit, pool, replies);
      && r.count == Min(limit, FollowableCount(Take(pool, n), Take(replies, n)))
      && t.followed.Keys <= r.table.followed.Keys
      && (forall k :: k in r.table.followed && (k !in t.followed || r.table.followed[k] != t.followed[k]) ==>
            FollowedIn(Take(pool, n), Take(replies, n), k, r.table.followed[k]))
  {
    var n := limit + FollowOverfetch;
    var p := Progress(t, disk, 0);
    FollowsCount(p, limit, Take(pool, n), Take(replies, n));
    FollowsTable(p, limit, Take(pool, n), Take(replies, n));
  }

  // ------------------------------------------------- unfollow_non_followers

  /** What `user_friendship` said: the user follows back, does not, or the call raised. */
  datatype Friendship = FollowsBack | NoFollowBack | CheckRaised

  /** How `user_unfollow` ended: it succeeded and the save that followed
      ended with `save`; or it raised. */
  datatype UnfollowReply = Unfollowed(save: SaveResult) | UnfollowRaised

  /** Followed at least two days ago, and the friendship check says the user
      does not follow back. */
  predicate Stale(followedAt: Stamp, now: Stamp, friendship: Friendship) {
    OldEnough(followedAt, now) && friendship.NoFollowBack?
  }

  /** `to_unfollow`: the ids of `ids`, in order, that are stale. The
      friendship check is only consulted for entries old enough; a check
      that raised skips the id. */
  function Selected(ids: seq<string>, followed: map<string, Stamp>, now: Stamp,
                    friendship: string -> Friendship): seq<string>
    requires forall k :: k in ids ==> k in followed
  {
    if ids == [] then []
    else
      (if Stale(followed[ids[0]], now, friendship(ids[0])) then [ids[0]] else [])
        + Selected(ids[1..], followed, now, friendship)
  }

  /** Selecting from two runs of ids one after the other selects from the
      first, then from the second. */
  lemma {:induction false} SelectedAppend(a: seq<string>, b: seq<string>, followed: map<string, Stamp>, now: Stamp,
                                          friendship: string -> Friendship)
    requires forall k :: k in a ==> k in followed
    requires forall k :: k in b ==> k in followed
    ensures Selected(a + b, followed, now, friendship) == Selected(a, followed, now, friendship) + Selected(b, followed, now, friendship)
  {
    if a == [] {
      assert a + b == b;
    } else {
      assert (a + b)[1..] == a[1..] + b;
      SelectedAppend(a[1..], b, followed, now, friendship);
    }
  }

  /** An id is selected exactly when it is in the table and stale; no id is
      selected twice when the table's ids are distinct. */
  lemma {:induction false} SelectedSpec(ids: seq<string>, followed: map<string, Stamp>, now: Stamp,
                                        friendship: string -> Friendship)
    requires forall k :: k in ids ==> k in followed
    ensures var r := Selected(ids, followed, now, friendship);
      && (forall k :: k in r <==> k in ids && Stale(followed[k], now, friendship(k)))
      && (Distinct(ids) ==> Distinct(r))
      && |r| <= |ids|
  {
    if ids != [] {
      SelectedSpec(ids[1..], followed, now, friendship);
      var rest := Selected(ids[1..], followed, now, friendship);
      if Distinct(ids) {
        DistinctTail(ids);
        DistinctCons(ids[0], rest);
      }
    }
  }

  lemma DistinctCons(x: string, rest: seq<string>)
    requires Distinct(rest) && x !in rest
    ensures Distinct([x] + rest)
  {
    var s := [x] + rest;
    forall i, j | 0 <= i < j < |s| ensures s[i] != s[j] {
      assert s[j] == rest[j - 1];
      if i > 0 { assert s[i] == rest[i - 1]; }
    }
  }

  /** Entries younger than two days never reach the friendship check: two
      checks that agree on the old-enough entries select the same ids. */
  lemma {:induction false} SelectedIgnoresYoung(ids: seq<string>, followed: map<string, Stamp>, now: Stamp,
                                                f: string -> Friendship, g: string -> Friendship)
    requires forall k :: k in ids ==> k in followed
    requires forall k :: k in ids && OldEnough(followed[k], now) ==> f(k) == g(k)
    ensures Selected(ids, followed, now, f) == Selected(ids, followed, now, g)
  {
    if ids != [] {
      SelectedIgnoresYoung(ids[1..], followed, now, f, g);
    }
  }

  /** One turn of the unfollow loop. The counter is checked first; an
      unfollow that raises changes nothing; a successful one deletes exactly
      that key, counts it and saves. A key already gone makes `del` raise:
      nothing is counted or saved. */
  function UnfollowStep(p: Progress, limit: nat, id: string, reply: UnfollowReply): (r: Progress)
    requires Tracks(p.table)
    ensures Tracks(r.table)
    ensures r.count == p.count + 1 <==> p.count < limit && reply.Unfollowed? && id in p.table.followed
    ensures r.count != p.count + 1 ==> r == p
    ensures r.count == p.count + 1 ==>
      && r.table.followed == p.table.followed - {id}
      && r.disk == Save(r.table, p.disk, reply.save)
  {
    if p.count >= limit then p
    else
      match reply
      case UnfollowRaised => p
      case Unfollowed(save) =>
        if id !in p.table.followed then p
        else
          DeleteSpec(p.table, id);
          var t := Delete(p.table, id);
          Progress(t, Save(t, p.disk, save), p.count + 1)
  }

  function Unfollows(p: Progress, limit: nat, ids: seq<string>, unfollow: string -> UnfollowReply): (r: Progress)
    requires Tracks(p.table)
    ensures Tracks(r.table)
    decreases |ids|
  {
    if ids == [] then p
    else Unfollows(UnfollowStep(p, limit, ids[0], unfollow(ids[0])), limit, ids[1..], unfollow)
  }

  /** `unfollow_non_followers`: select first, over the whole table, then
      unfollow with a counter starting at 0; the table is not changed while
      it is being iterated. */
  function UnfollowPhase(t: Table, disk: Disk, limit: nat, now: Stamp,
                         friendship: string -> Friendship, unfollow: string -> UnfollowReply): Progress
    requires Tracks(t)
  {
    Unfollows(Progress(t, disk, 0), limit, Selected(t.order, t.followed, now, friendship), unfollow)
  }

  /** The number of ids whose unfollow succeeds. */
  function UnfollowableCount(ids: seq<string>, unfollow: string -> UnfollowReply): (n: nat)
    ensures n <= |ids|
  {
    if ids == [] then 0
    else (if unfollow(ids[0]).Unfollowed? then 1 else 0) + UnfollowableCount(ids[1..], unfollow)
  }

  lemma {:induction false} UnfollowsSaturated(p: Progress, limit: nat, ids: seq<string>, unfollow: string -> UnfollowReply)
    requires Tracks(p.table) && p.count >= limit
    ensures Unfollows(p, limit, ids, unfollow) == p
    decreases |ids|
  {
    if ids != [] {
      UnfollowsSaturated(p, limit, ids[1..], unfollow);
    }
  }

  /** The unfollow loop only removes entries, each one an id of `ids` whose
      unfollow succeeded; the entries it keeps are unchanged; and every
      counted unfollow removed exactly one key. */
  lemma {:induction false} UnfollowsTable(p: Progress, limit: nat, ids: seq<string>, unfollow: string -> UnfollowReply)
    requires Tracks(p.table) && p.count <= limit
    ensures var r := Unfollows(p, limit, ids, unfollow);
      && p.count <= r.count <= limit
      && r.table.followed.Keys <= p.table.followed.Keys
      && (forall k :: k in r.table.followed ==> r.table.followed[k] == p.table.followed[k])
      && (forall k :: k in p.table.followed && k !in r.table.followed ==> k in ids && unfollow(k).Unfollowed?)
      && |p.table.followed| - |r.table.followed| == r.count - p.count
    decreases |ids|
  {
    if ids != [] {
      var q := UnfollowStep(p, limit, ids[0], unfollow(ids[0]));
      UnfollowStepTable(p, limit, ids[0], unfollow(ids[0]));
      UnfollowsTable(q, limit, ids[1..], unfollow);
    }
  }

  /** One turn of the unfollow loop removes at most the one key it is
      given, and only when its unfollow succeeds. */
  lemma UnfollowStepTable(p: Progress, limit: nat, id: string, reply: UnfollowReply)
    requires Tracks(p.table) && p.count <= limit
    ensures var q := UnfollowStep(p, limit, id, reply);
      && p.count <= q.count <= limit
      && q.table.followed.Keys <= p.table.followed.Keys
      && (forall k :: k in q.table.followed ==> q.table.followed[k] == p.table.followed[k])
      && (forall k :: k in p.table.followed && k !in q.table.followed ==> k == id && reply.Unfollowed?)
      && |p.table.followed| - |q.table.followed| == q.count - p.count
  {
    var q := UnfollowStep(p, limit, id, reply);
    if q.count == p.count + 1 {
      assert q.table.followed.Keys == p.table.followed.Keys - {id};
    }
  }

  /** When the ids are distinct and all still in the table, the loop
      unfollows exactly `min(limit, count + successes)` of them. */
  lemma {:induction false} UnfollowsCount(p: Progress, limit: nat, ids: seq<string>, unfollow: string -> UnfollowReply)
    requires Tracks(p.table) && p.count <= limit
    requires Distinct(ids) && forall k :: k in ids ==> k in p.table.followed
    ensures Unfollows(p, limit, ids, unfollow).count == Min(limit, p.count + UnfollowableCount(ids, unfollow))
    decreases |ids|
  {
    if ids != [] {
      var q := UnfollowStep(p, limit, ids[0], unfollow(ids[0]));
      var rest := ids[1..];
      DistinctTail(ids);
      UnfollowStepKeeps(p, limit, ids[0], unfollow(ids[0]), rest);
      UnfollowsCount(q, limit, rest, unfollow);
      UnfollowsHead(p, limit, ids, unfollow);
    }
  }

  /** The unfollow loop is its first turn followed by the rest. */
  lemma UnfollowsHead(p: Progress, limit: nat, ids: seq<string>, unfollow: string -> UnfollowReply)
    requires Tracks(p.table) && ids != []
    ensures Unfollows(p, limit, ids, unfollow)
            == Unfollows(UnfollowStep(p, limit, ids[0], unfollow(ids[0])), limit, ids[1..], unfollow)
  {
  }

  lemma DistinctTail(ids: seq<string>)
    requires Distinct(ids) && ids != []
    ensures Distinct(ids[1..]) && ids[0] !in ids[1..]
  {
    var rest := ids[1..];
    forall j | 0 <= j < |rest| ensures rest[j] != ids[0] {
      assert rest[j] == ids[j + 1];
    }
  }

  /** One turn on an id still in the table counts it exactly when the limit
      is not reached and its unfollow succeeds, and keeps every other id. */
  lemma UnfollowStepKeeps(p: Progress, limit: nat, id: string, reply: UnfollowReply, rest: seq<string>)
    requires Tracks(p.table) && p.count <= limit && id in p.table.followed
    requires id !in rest && forall k :: k in rest ==> k in p.table.followed
    ensures var q := UnfollowStep(p, limit, id, reply);
      && q.count == (if p.count == limit then p.count else p.count + if reply.Unfollowed? then 1 else 0)
      && forall k :: k in rest ==> k in q.table.followed
  {
  }

  lemma {:induction false} UnfollowsSync(p: Progress, limit: nat, ids: seq<string>, unfollow: string -> UnfollowReply)
    requires Tracks(p.table) && InSync(p.table, p.disk)
    requires forall k :: k in ids && unfollow(k).Unfollowed? ==> unfollow(k).save == Written
    ensures var r := Unfollows(p, limit, ids, unfollow); InSync(r.table, r.disk)
    decreases |ids|
  {
    if ids != [] {
      var q := UnfollowStep(p, limit, ids[0], unfollow(ids[0]));
      if q != p {
        SaveSpec(q.table, p.disk, Written);
      }
      UnfollowsSync(q, limit, ids[1..], unfollow);
    }
  }

  /** What one `unfollow_non_followers` call promises: at most `limit`
      unfollows, exactly as many as the selected users whose unfollow
      succeeds, up to the limit; only stale entries whose unfollow succeeded
      are removed, one key per counted unfollow; the others keep their time. */
  lemma UnfollowPhaseSpec(t: Table, disk: Disk, limit: nat, now: Stamp,
                          friendship: string -> Friendship, unfollow: string -> UnfollowReply)
    requires Tracks(t)
    ensures var sel := Selected(t.order, t.followed, now, friendship);
      var r := UnfollowPhase(t, disk, limit, now, friendship, unfollow);
      && r.count == Min(limit, UnfollowableCount(sel, unfollow))
      && r.table.followed.Keys <= t.followed.Keys
      && (forall k :: k in r.table.followed ==> r.table.followed[k] == t.followed[k])
      && (forall k :: k in t.followed && k !in r.table.followed ==>
            Stale(t.followed[k], now, friendship(k)) && unfollow(k).Unfollowed?)
      && |t.followed| - |r.table.followed| == r.count
  {
    var sel := Selected(t.order, t.followed, now, friendship);
    var p := Progress(t, disk, 0);
    SelectedSpec(t.order, t.followed, now, friendship);
    UnfollowsTable(p, limit, sel, unfollow);
    UnfollowsCount(p, limit, sel, unfollow);
  }

  // ----------------------------------------- reply_to_stories, comment_on_posts

  /** What `random.choice(texts)` returns when the generator draws `draw`;
      None when the table is empty and the call raises. */
  function Choice(texts: seq<string>, draw: nat): (r: Option<string>)
    ensures r.Some? <==> |texts| > 0
    ensures r.Some? ==> r.value in texts
  {
    if |texts| == 0 then None else Some(texts[draw % |texts|])
  }

  /** The reaction to one item when the counter allows it: none when the
      draw raises (an empty table) or the send raises, else the item with
      the drawn text. */
  function Reaction(item: string, texts: seq<string>, draw: string -> nat, ok: string -> bool): (r: seq<(string, string)>)
    ensures |r| <= 1
    ensures r != [] <==> |texts| > 0 && ok(item)
    ensures r != [] ==> r[0].0 == item && r[0].1 in texts
  {
    match Choice(texts, draw(item))
    case None => []
    case Some(text) => if ok(item) then [(item, text)] else []
  }

  /** The items (or threads) a list of reactions (or replies) went to, in order. */
  function SentIds(sent: seq<(string, string)>): (r: seq<string>)
    ensures |r| == |sent| && forall i :: 0 <= i < |r| ==> r[i] == sent[i].0
  {
    seq(|sent|, i requires 0 <= i < |sent| => sent[i].0)
  }

  /** The ids of a concatenation are the ids of its parts. */
  lemma SentIdsAppend(a: seq<(string, string)>, b: seq<(string, string)>)
    ensures SentIds(a + b) == SentIds(a) + SentIds(b)
  {
    assert forall i :: 0 <= i < |a + b| ==> SentIds(a + b)[i] == (SentIds(a) + SentIds(b))[i];
  }

  /** One turn of a bounded reaction loop (a story reply, a comment): the
      counter is checked first; then a text is drawn and the reaction is
      sent; a draw or a send that raises skips the item uncounted. The
      counter is the number of reactions sent so far. */
  function ReactStep(sent: seq<(string, string)>, limit: nat, item: string, texts: seq<string>,
                     draw: string -> nat, ok: string -> bool): seq<(string, string)>
  {
    if |sent| >= limit then sent else sent + Reaction(item, texts, draw, ok)
  }

  /** The loop over `items`, from reactions `sent` on. */
  function Reacting(sent: seq<(string, string)>, limit: nat, items: seq<string>, texts: seq<string>,
                    draw: string -> nat, ok: string -> bool): seq<(string, string)>
    decreases |items|
  {
    if items == [] then sent
    else Reacting(ReactStep(sent, limit, items[0], texts, draw, ok), limit, items[1..], texts, draw, ok)
  }

  /** Reference definition: the reactions the loop would send with no limit,
      one per item whose draw and send succeed, in item order. */
  function Succeeding(items: seq<string>, texts: seq<string>, draw: string -> nat, ok: string -> bool): seq<(string, string)>
  {
    if items == [] then []
    else Reaction(items[0], texts, draw, ok) + Succeeding(items[1..], texts, draw, ok)
  }

  /** Every reaction the unlimited loop sends is to an item of the list whose
      send succeeds, with a text of the table; there are at most as many as
      items, none at all with an empty table, and no item gets two when the
      items are distinct. */
  lemma {:induction false} SucceedingSpec(items: seq<string>, texts: seq<string>, draw: string -> nat, ok: string -> bool)
    ensures var s := Succeeding(items, texts, draw, ok);
      && |s| <= |items|
      && (forall e :: e in s ==> e.0 in items && ok(e.0) && e.1 in texts)
      && (|texts| == 0 ==> s == [])
      && (Distinct(items) ==> Distinct(SentIds(s)))
  {
    if items != [] {
      var here := Reaction(items[0], texts, draw, ok);
      var rest := Succeeding(items[1..], texts, draw, ok);
      SucceedingSpec(items[1..], texts, draw, ok);
      if Distinct(items) {
        DistinctTail(items);
        SentIdsAppend(here, rest);
        if here != [] {
          assert SentIds(here) == [items[0]];
          assert items[0] !in SentIds(rest) by {
            forall i | 0 <= i < |rest| ensures SentIds(rest)[i] != items[0] {
              assert rest[i] in rest;
              var j :| 0 <= j < |items| - 1 && items[1..][j] == rest[i].0;
              assert items[j + 1] == rest[i].0;
            }
          }
          DistinctCons(items[0], SentIds(rest));
        } else {
          assert SentIds(here) + SentIds(rest) == SentIds(rest);
        }
      }
    }
  }

  /** A prefix of reactions that went to distinct items went to distinct items. */
  lemma DistinctPrefix(s: seq<(string, string)>, n: nat)
    requires Distinct(SentIds(s)) && n <= |s|
    ensures Distinct(SentIds(s[..n]))
  {
    var ids := SentIds(s);
    assert SentIds(s[..n]) == ids[..n];
    assert forall i :: 0 <= i < n ==> ids[..n][i] == ids[i];
  }

  /** Taking past a short prefix keeps the prefix whole. */
  lemma TakeAppend<T>(front: seq<T>, back: seq<T>, amount: nat)
    requires |front| <= amount
    ensures Take(front + back, amount) == front + Take(back, amount - |front|)
  {
    var r := Take(front + back, amount);
    var q := front + Take(back, amount - |front|);
    assert |r| == |q|;
    forall k | 0 <= k < |r| ensures r[k] == q[k] {
      if k >= |front| {
        assert r[k] == back[k - |front|];
      }
    }
  }

  /** One turn of the bounded loop moves one reaction of the unlimited loop
      from the part still to send to the part sent, or none at the limit. */
  lemma ReactStepTake(sent: seq<(string, string)>, limit: nat, here: seq<(string, string)>, rest: seq<(string, string)>)
    requires |sent| <= limit && |here| <= 1
    ensures var next := if |sent| >= limit then sent else sent + here;
      next + Take(rest, limit - |next|) == sent + Take(here + rest, limit - |sent|)
  {
    if |sent| == limit {
      assert Take(here + rest, 0) == [];
      assert Take(rest, 0) == [];
    } else {
      TakeAppend(here, rest, limit - |sent|);
      var tail := Take(rest, limit - |sent| - |here|);
      assert (sent + here) + tail == sent + (here + tail);
    }
  }

  /** The bounded loop sends exactly the first `limit - |sent|` reactions of
      the unlimited one: it stops at the limit, and below it no successful
      reaction is missed. */
  lemma {:induction false} ReactingTake(sent: seq<(string, string)>, limit: nat, items: seq<string>, texts: seq<string>,
                                        draw: string -> nat, ok: string -> bool)
    requires |sent| <= limit
    ensures Reacting(sent, limit, items, texts, draw, ok)
            == sent + Take(Succeeding(items, texts, draw, ok), limit - |sent|)
    decreases |items|
  {
    if items == [] {
      assert Take<(string, string)>([], limit - |sent|) == [];
    } else {
      var here := Reaction(items[0], texts, draw, ok);
      var rest := Succeeding(items[1..], texts, draw, ok);
      var next := ReactStep(sent, limit, items[0], texts, draw, ok);
      ReactingTake(next, limit, items[1..], texts, draw, ok);
      ReactStepTake(sent, limit, here, rest);
    }
  }

  /** The loop over two runs of items is the loop over the second started
      where the loop over the first ended. */
  lemma {:induction false} ReactingAppend(sent: seq<(string, string)>, limit: nat, xs: seq<string>, ys: seq<string>,
                                          texts: seq<string>, draw: string -> nat, ok: string -> bool)
    ensures Reacting(sent, limit, xs + ys, texts, draw, ok)
            == Reacting(Reacting(sent, limit, xs, texts, draw, ok), limit, ys, texts, draw, ok)
    decreases |xs|
  {
    if xs == [] {
      assert xs + ys == ys;
    } else {
      assert (xs + ys)[1..] == xs[1..] + ys;
      ReactingAppend(ReactStep(sent, limit, xs[0], texts, draw, ok), limit, xs[1..], ys, texts, draw, ok);
    }
  }

  /** Once `limit` reactions are sent, the rest of the loop sends nothing. */
  lemma {:induction false} ReactingSaturated(sent: seq<(string, string)>, limit: nat, items: seq<string>, texts: seq<string>,
                                             draw: string -> nat, ok: string -> bool)
    requires |sent| >= limit
    ensures Reacting(sent, limit, items, texts, draw, ok) == sent
    decreases |items|
  {
    if items != [] {
      ReactingSaturated(sent, limit, items[1..], texts, draw, ok);
    }
  }

  /** What a bounded reaction loop promises, from a counter of 0: at most
      `limit` reactions and at most one per item, exactly
      `min(limit, successes)` of them, each to a listed item whose send
      succeeded, with a text from the table. */
  lemma ReactionsSpec(limit: nat, items: seq<string>, texts: seq<string>, draw: string -> nat, ok: string -> bool)
    ensures var r := Reacting([], limit, items, texts, draw, ok);
      && |r| == Min(limit, |Succeeding(items, texts, draw, ok)|)
      && |r| <= |items|
      && (forall e :: e in r ==> e.0 in items && ok(e.0) && e.1 in texts)
      && (Distinct(items) ==> Distinct(SentIds(r)))
  {
    var s := Succeeding(items, texts, draw, ok);
    var r := Reacting([], limit, items, texts, draw, ok);
    ReactingPrefix(limit, items, texts, draw, ok);
    SucceedingSpec(items, texts, draw, ok);
    PrefixMembers(s, |r|);
    if Distinct(items) {
      DistinctPrefix(s, |r|);
    }
  }

  /** From a counter of 0 the bounded loop sends a prefix of what the
      unlimited one sends. */
  lemma ReactingPrefix(limit: nat, items: seq<string>, texts: seq<string>, draw: string -> nat, ok: string -> bool)
    ensures var s := Succeeding(items, texts, draw, ok);
      var r := Reacting([], limit, items, texts, draw, ok);
      |r| == Min(limit, |s|) && r == s[..|r|]
  {
    var s := Succeeding(items, texts, draw, ok);
    ReactingTake([], limit, items, texts, draw, ok);
    assert [] + Take(s, limit) == Take(s, limit);
  }

  lemma PrefixMembers(s: seq<(string, string)>, n: nat)
    requires n <= |s|
    ensures forall e :: e in s[..n] ==> e in s
  {
  }

  /** The stories of all users, one user's after another's. */
  function Flatten(stories: seq<seq<string>>): (r: seq<string>)
  {
    if stories == [] then [] else stories[0] + Flatten(stories[1..])
  }

  lemma {:induction false} FlattenMembers(stories: seq<seq<string>>)
    ensures forall x :: x in Flatten(stories) <==> exists u :: 0 <= u < |stories| && x in stories[u]
  {
    if stories != [] {
      FlattenMembers(stories[1..]);
      forall x | x in Flatten(stories[1..]) ensures exists u :: 0 <= u < |stories| && x in stories[u] {
        var u :| 0 <= u < |stories| - 1 && x in stories[1..][u];
        assert x in stories[u + 1];
      }
      forall x | exists u :: 0 <= u < |stories| && x in stories[u] ensures x in Flatten(stories) {
        var u :| 0 <= u < |stories| && x in stories[u];
        if u > 0 { assert x in stories[1..][u - 1]; }
      }
    }
  }

  /** `reply_to_stories`: the loop over users and, inside it, over their
      stories, with one counter; the inner `break` leaves only the inner
      loop, but every later user's loop breaks at once, so the whole is one
      bounded loop over all stories in order. */
  function StoryPhase(limit: nat, stories: seq<seq<string>>, responses: seq<string>,
                      draw: string -> nat, ok: string -> bool): seq<(string, string)>
  {
    Reacting([], limit, Flatten(stories), responses, draw, ok)
  }

  /** At most `limit` story replies across all users, each to one of the
      listed stories. */
  lemma StoryPhaseSpec(limit: nat, stories: seq<seq<string>>, responses: seq<string>,
                       draw: string -> nat, ok: string -> bool)
    ensures var r := StoryPhase(limit, stories, responses, draw, ok);
      && |r| == Min(limit, |Succeeding(Flatten(stories), responses, draw, ok)|)
      && (forall e :: e in r ==> ok(e.0) && e.1 in responses && exists u :: 0 <= u < |stories| && e.0 in stories[u])
      && (Distinct(Flatten(stories)) ==> Distinct(SentIds(r)))
  {
    ReactionsSpec(limit, Flatten(stories), responses, draw, ok);
    FlattenMembers(stories);
  }

  /** How many recent posts of the chosen account are fetched. */
  const PostFetch: nat := 5

  /** `comment_on_posts`: the bounded loop over the account's latest 5 posts. */
  function CommentPhase(limit: nat, posts: seq<string>, templates: seq<string>,
                        draw: string -> nat, ok: string -> bool): seq<(string, string)>
  {
    Reacting([], limit, Take(posts, PostFetch), templates, draw, ok)
  }

  /** Exactly `min(limit, successes)` comments among the first 5 posts, so
      at most `min(limit, 5, posts)`, each on one of those posts, with a
      template text. */
  lemma CommentPhaseSpec(limit: nat, posts: seq<string>, templates: seq<string>,
                         draw: string -> nat, ok: string -> bool)
    ensures var r := CommentPhase(limit, posts, templates, draw, ok);
      && |r| == Min(limit, |Succeeding(Take(posts, PostFetch), templates, draw, ok)|)
      && |r| <= Min(limit, Min(PostFetch, |posts|))
      && (forall e :: e in r ==> e.0 in posts[..Min(PostFetch, |posts|)] && ok(e.0) && e.1 in templates)
      && (Distinct(Take(posts, PostFetch)) ==> Distinct(SentIds(r)))
  {
    ReactionsSpec(limit, Take(posts, PostFetch), templates, draw, ok);
  }

  // --------------------------------------------------- handle_direct_messages

  /** A thread's `last_permanent_item`: absent (or without a `text`
      attribute), present with `text` None, or present with a text. */
  datatype LastItem = NoItem | NoText | Message(text: string)

  datatype Thread = Thread(id: string, last: LastItem)

  /** How many threads are fetched. */
  const ThreadFetch: nat := 20

  /** The response sent for a last message `text`: the first rule, in table
      order, whose trigger occurs in the lower-cased text and whose send
      succeeds; `sendOk[j]` says whether sending rule `j`'s response works. */
  function Reply(text: string, rules: seq<Rule>, sendOk: seq<bool>): (r: Option<string>)
    ensures r.Some? <==> exists j :: 0 <= j < |rules| && Answers(Lower(text), rules, sendOk, j)
    ensures r.Some? ==> exists j :: 0 <= j < |rules| && Answers(Lower(text), rules, sendOk, j)
                                    && r.value == rules[j].response
                                    && forall i :: 0 <= i < j ==> !Answers(Lower(text), rules, sendOk, i)
  {
    FirstAnswerSpec(Lower(text), rules, sendOk, 0);
    match FirstAnswer(Lower(text), rules, sendOk, 0)
    case None => None
    case Some(j) => Some(rules[j].response)
  }

  /** The replies sent so far, and whether the phase was cut short by an
      exception outside the per-send `try`. */
  datatype DmResult = DmResult(sent: seq<(string, string)>, aborted: bool)

  /** One thread: skipped when there is no item; `.lower()` on a None text
      raises, which ends the phase; otherwise at most one reply. */
  function DmStep(acc: DmResult, th: Thread, rules: seq<Rule>, sendOk: seq<bool>): DmResult
  {
    match th.last
    case NoItem => acc
    case NoText => DmResult(acc.sent, true)
    case Message(text) =>
      match Reply(text, rules, sendOk)
      case None => acc
      case Some(response) => DmResult(acc.sent + [(th.id, response)], acc.aborted)
  }

  /** The loop over `threads`, `sendOk[i]` being the send outcomes for thread `i`. */
  function DmLoop(acc: DmResult, threads: seq<Thread>, rules: seq<Rule>, sendOk: seq<seq<bool>>): DmResult
    requires |sendOk| == |threads|
    decreases |threads|
  {
    if threads == [] || acc.aborted then acc
    else DmLoop(DmStep(acc, threads[0], rules, sendOk[0]), threads[1..], rules, sendOk[1..])
  }

  /** `handle_direct_messages`: the loop over the 20 latest threads; no limit
      other than the number of threads applies. */
  function DmPhase(inbox: seq<Thread>, rules: seq<Rule>, sendOk: seq<seq<bool>>): DmResult
    requires |sendOk| == |inbox|
  {
    DmLoop(DmResult([], false), Take(inbox, ThreadFetch), rules, Take(sendOk, ThreadFetch))
  }

  /** The replies the threads get, read off the threads themselves: each
      thread up to the first one whose last item has no text gets its
      first-match reply, if it has one. */
  function Answered(threads: seq<Thread>, rules: seq<Rule>, sendOk: seq<seq<bool>>): (r: seq<(string, string)>)
    requires |sendOk| == |threads|
    ensures |r| <= |threads|
    decreases |threads|
  {
    if threads == [] then []
    else
      match threads[0].last
      case NoText => []
      case NoItem => Answered(threads[1..], rules, sendOk[1..])
      case Message(text) =>
        var rest := Answered(threads[1..], rules, sendOk[1..]);
        match Reply(text, rules, sendOk[0])
        case None => rest
        case Some(response) => [(threads[0].id, response)] + rest
  }

  /** The DM loop sends exactly `Answered`, after what was already sent. */
  lemma {:induction false} DmLoopAnswered(acc: DmResult, threads: seq<Thread>, rules: seq<Rule>, sendOk: seq<seq<bool>>)
    requires |sendOk| == |threads| && !acc.aborted
    ensures DmLoop(acc, threads, rules, sendOk).sent == acc.sent + Answered(threads, rules, sendOk)
    decreases |threads|
  {
    if threads != [] {
      var next := DmStep(acc, threads[0], rules, sendOk[0]);
      assert DmLoop(acc, threads, rules, sendOk) == DmLoop(next, threads[1..], rules, sendOk[1..]);
      DmStepAnswered(acc, threads, rules, sendOk);
      if !next.aborted {
        DmLoopAnswered(next, threads[1..], rules, sendOk[1..]);
      }
    }
  }

  /** One step of the loop moves the first thread's reply from `Answered`
      to what was sent. */
  lemma DmStepAnswered(acc: DmResult, threads: seq<Thread>, rules: seq<Rule>, sendOk: seq<seq<bool>>)
    requires threads != [] && |sendOk| == |threads| && !acc.aborted
    ensures var next := DmStep(acc, threads[0], rules, sendOk[0]);
      && (next.aborted ==> next.sent == acc.sent && Answered(threads, rules, sendOk) == [])
      && (!next.aborted ==> next.sent + Answered(threads[1..], rules, sendOk[1..]) == acc.sent + Answered(threads, rules, sendOk))
  {
    var rest := Answered(threads[1..], rules, sendOk[1..]);
    match threads[0].last
    case NoItem =>
    case NoText =>
    case Message(text) =>
      match Reply(text, rules, sendOk[0])
      case None =>
      case Some(response) =>
        var e := (threads[0].id, response);
        assert Answered(threads, rules, sendOk) == [e] + rest;
        assert (acc.sent + [e]) + rest == acc.sent + ([e] + rest);
  }

  /** Every thread before the first one without text whose last message has
      a first-match reply gets that reply. */
  lemma {:induction false} AnsweredComplete(threads: seq<Thread>, rules: seq<Rule>, sendOk: seq<seq<bool>>, i: nat)
    requires |sendOk| == |threads| && i < |threads|
    requires forall j :: 0 <= j < i ==> !threads[j].last.NoText?
    requires threads[i].last.Message? && Reply(threads[i].last.text, rules, sendOk[i]).Some?
    ensures (threads[i].id, Reply(threads[i].last.text, rules, sendOk[i]).value) in Answered(threads, rules, sendOk)
    decreases i
  {
    if i > 0 {
      var tail, oks := threads[1..], sendOk[1..];
      assert tail[i - 1] == threads[i] && oks[i - 1] == sendOk[i];
      forall j | 0 <= j < i - 1 ensures !tail[j].last.NoText? {
        assert tail[j] == threads[j + 1];
      }
      AnsweredComplete(tail, rules, oks, i - 1);
      assert !threads[0].last.NoText?;
    }
  }

  function ThreadIds(threads: seq<Thread>): (r: seq<string>)
    ensures |r| == |threads| && forall i :: 0 <= i < |r| ==> r[i] == threads[i].id
  {
    seq(|threads|, i requires 0 <= i < |threads| => threads[i].id)
  }

  /** The DM loop keeps the replies already sent and adds at most one per
      thread; it is cut short exactly when it reaches a thread whose last
      item has a None text. */
  lemma {:induction false} DmLoopShape(acc: DmResult, threads: seq<Thread>, rules: seq<Rule>, sendOk: seq<seq<bool>>)
    requires |sendOk| == |threads| && !acc.aborted
    ensures var r := DmLoop(acc, threads, rules, sendOk);
      && |acc.sent| <= |r.sent| <= |acc.sent| + |threads|
      && r.sent[..|acc.sent|] == acc.sent
      && (r.aborted <==> exists i :: 0 <= i < |threads| && threads[i].last.NoText?)
    decreases |threads|
  {
    if threads != [] {
      var next := DmStep(acc, threads[0], rules, sendOk[0]);
      var r := DmLoop(acc, threads, rules, sendOk);
      assert r == DmLoop(next, threads[1..], rules, sendOk[1..]);
      if !next.aborted {
        DmLoopShape(next, threads[1..], rules, sendOk[1..]);
        assert r.sent[..|acc.sent|] == r.sent[..|next.sent|][..|acc.sent|];
        if r.aborted {
          var i :| 0 <= i < |threads| - 1 && threads[1..][i].last.NoText?;
          assert threads[i + 1].last.NoText?;
        } else {
          forall i | 0 <= i < |threads| ensures !threads[i].last.NoText? {
            if i > 0 { assert threads[1..][i - 1] == threads[i]; }
          }
        }
      }
    }
  }

  /** Reply `e` is the one thread `i` gets: its id, and the first-match
      reply to its last message; and no earlier thread ended the phase. */
  predicate RepliesTo(threads: seq<Thread>, rules: seq<Rule>, sendOk: seq<seq<bool>>, i: nat, e: (string, string))
    requires i < |threads| && |sendOk| == |threads|
  {
    && threads[i].id == e.0 && threads[i].last.Message?
    && Reply(threads[i].last.text, rules, sendOk[i]) == Some(e.1)
    && forall j :: 0 <= j < i ==> !threads[j].last.NoText?
  }

  /** Reply `e` is the one some thread of `threads` gets. */
  predicate RepliedIn(threads: seq<Thread>, rules: seq<Rule>, sendOk: seq<seq<bool>>, e: (string, string))
    requires |sendOk| == |threads|
  {
    exists i :: 0 <= i < |threads| && RepliesTo(threads, rules, sendOk, i, e)
  }

  /** Every reply the DM loop adds goes to a thread that precedes every
      thread with a None text, and is that thread's first-match reply. */
  lemma {:induction false} DmLoopReplies(acc: DmResult, threads: seq<Thread>, rules: seq<Rule>, sendOk: seq<seq<bool>>)
    requires |sendOk| == |threads| && !acc.aborted
    ensures var r := DmLoop(acc, threads, rules, sendOk);
      forall k :: |acc.sent| <= k < |r.sent| ==> RepliedIn(threads, rules, sendOk, r.sent[k])
    decreases |threads|
  {
    if threads != [] {
      var next := DmStep(acc, threads[0], rules, sendOk[0]);
      var r := DmLoop(acc, threads, rules, sendOk);
      assert r == DmLoop(next, threads[1..], rules, sendOk[1..]);
      if !next.aborted {
        DmLoopShape(next, threads[1..], rules, sendOk[1..]);
        DmLoopReplies(next, threads[1..], rules, sendOk[1..]);
        forall k | |acc.sent| <= k < |r.sent|
          ensures RepliedIn(threads, rules, sendOk, r.sent[k])
        {
          if k < |next.sent| {
            DmHeadReply(acc, threads, rules, sendOk);
            assert r.sent[k] == r.sent[..|next.sent|][k];
          } else {
            RepliedInTail(threads, rules, sendOk, r.sent[k]);
          }
        }
      } else {
        assert r == next && next.sent == acc.sent;
      }
    }
  }

  /** The reply the first thread gets, if any, is that thread's. */
  lemma DmHeadReply(acc: DmResult, threads: seq<Thread>, rules: seq<Rule>, sendOk: seq<seq<bool>>)
    requires threads != [] && |sendOk| == |threads| && !acc.aborted
    ensures var next := DmStep(acc, threads[0], rules, sendOk[0]);
      && |acc.sent| <= |next.sent| <= |acc.sent| + 1
      && (|next.sent| > |acc.sent| ==> RepliesTo(threads, rules, sendOk, 0, next.sent[|acc.sent|]))
  {
  }

  /** A reply some later thread gets is one `threads` gets, provided the
      first thread does not end the phase. */
  lemma RepliedInTail(threads: seq<Thread>, rules: seq<Rule>, sendOk: seq<seq<bool>>, e: (string, string))
    requires threads != [] && |sendOk| == |threads| && !threads[0].last.NoText?
    requires RepliedIn(threads[1..], rules, sendOk[1..], e)
    ensures RepliedIn(threads, rules, sendOk, e)
  {
    var i :| 0 <= i < |threads| - 1 && RepliesTo(threads[1..], rules, sendOk[1..], i, e);
    assert threads[i + 1] == threads[1..][i] && sendOk[i + 1] == sendOk[1..][i];
    forall j | 0 <= j < i + 1 ensures !threads[j].last.NoText? {
      if j > 0 { assert threads[j] == threads[1..][j - 1]; }
    }
    assert RepliesTo(threads, rules, sendOk, i + 1, e);
  }

  /** At most one reply per thread: when the ids already replied to and the
      threads' ids are all distinct, so are the ids replied to at the end. */
  lemma {:induction false} DmLoopDistinct(acc: DmResult, threads: seq<Thread>, rules: seq<Rule>, sendOk: seq<seq<bool>>)
    requires |sendOk| == |threads| && !acc.aborted
    requires Distinct(SentIds(acc.sent) + ThreadIds(threads))
    ensures Distinct(SentIds(DmLoop(acc, threads, rules, sendOk).sent))
    decreases |threads|
  {
    var ids := SentIds(acc.sent) + ThreadIds(threads);
    var n := |acc.sent|;
    if threads == [] {
      assert ids == SentIds(acc.sent);
    } else {
      var next := DmStep(acc, threads[0], rules, sendOk[0]);
      var r := DmLoop(acc, threads, rules, sendOk);
      assert r == DmLoop(next, threads[1..], rules, sendOk[1..]);
      if next.aborted {
        assert SentIds(r.sent) == ids[..n];
        forall i, j | 0 <= i < j < n ensures ids[..n][i] != ids[..n][j] {
          assert ids[..n][i] == ids[i] && ids[..n][j] == ids[j];
        }
      } else {
        DistinctStep(acc.sent, next.sent, threads);
        DmLoopDistinct(next, threads[1..], rules, sendOk[1..]);
      }
    }
  }

  /** After one thread, the replied-to ids followed by the remaining threads'
      ids are still distinct. */
  lemma DistinctStep(before: seq<(string, string)>, after: seq<(string, string)>, threads: seq<Thread>)
    requires threads != []
    requires after == before || (|after| == |before| + 1 && after[..|before|] == before
                                 && after[|before|].0 == threads[0].id)
    requires Distinct(SentIds(before) + ThreadIds(threads))
    ensures Distinct(SentIds(after) + ThreadIds(threads[1..]))
  {
    if after == before {
      DistinctSkip(before, threads);
    } else {
      DistinctReply(before, after, threads);
    }
  }

  /** A thread left without a reply drops out of the ids. */
  lemma DistinctSkip(sent: seq<(string, string)>, threads: seq<Thread>)
    requires threads != []
    requires Distinct(SentIds(sent) + ThreadIds(threads))
    ensures Distinct(SentIds(sent) + ThreadIds(threads[1..]))
  {
    var a := SentIds(sent) + ThreadIds(threads);
    var b := SentIds(sent) + ThreadIds(threads[1..]);
    var n := |sent|;
    forall i, j | 0 <= i < j < |b| ensures b[i] != b[j] {
      var fi, fj := if i < n then i else i + 1, if j < n then j else j + 1;
      assert b[i] == a[fi] && b[j] == a[fj];
    }
  }

  /** A reply to the first thread moves its id from the threads' ids to the
      replied-to ids, leaving the sequence of ids as it was. */
  lemma DistinctReply(before: seq<(string, string)>, after: seq<(string, string)>, threads: seq<Thread>)
    requires threads != []
    requires |after| == |before| + 1 && after[..|before|] == before && after[|before|].0 == threads[0].id
    ensures SentIds(after) + ThreadIds(threads[1..]) == SentIds(before) + ThreadIds(threads)
  {
    var a := SentIds(before) + ThreadIds(threads);
    var b := SentIds(after) + ThreadIds(threads[1..]);
    var n := |before|;
    forall i | 0 <= i < |b| ensures b[i] == a[i] {
      if i < n {
        assert after[i] == after[..n][i];
      } else if i > n {
        assert b[i] == threads[1..][i - n - 1].id;
      }
    }
  }

  /** What one `handle_direct_messages` call promises: at most one reply per
      fetched thread, so never more than 20; each reply is the first-match
      reply of a fetched thread that precedes every thread whose last item
      has no text; the phase ends early exactly when there is such a thread. */
  lemma DmPhaseSpec(inbox: seq<Thread>, rules: seq<Rule>, sendOk: seq<seq<bool>>)
    requires |sendOk| == |inbox|
    ensures var r := DmPhase(inbox, rules, sendOk);
      var threads, oks := Take(inbox, ThreadFetch), Take(sendOk, ThreadFetch);
      && |r.sent| <= |threads| <= ThreadFetch
      && (r.aborted <==> exists i :: 0 <= i < |threads| && threads[i].last.NoText?)
      && r.sent == Answered(threads, rules, oks)
      && (forall e :: e in r.sent ==> RepliedIn(threads, rules, oks, e))
      && (Distinct(ThreadIds(threads)) ==> Distinct(SentIds(r.sent)))
  {
    var threads, oks := Take(inbox, ThreadFetch), Take(sendOk, ThreadFetch);
    var acc := DmResult([], false);
    var r := DmLoop(acc, threads, rules, oks);
    DmLoopShape(acc, threads, rules, oks);
    DmLoopReplies(acc, threads, rules, oks);
    DmLoopAnswered(acc, threads, rules, oks);
    forall e | e in r.sent ensures RepliedIn(threads, rules, oks, e) {
      var k :| 0 <= k < |r.sent| && r.sent[k] == e;
    }
    if Distinct(ThreadIds(threads)) {
      assert SentIds([]) + ThreadIds(threads) == ThreadIds(threads);
      DmLoopDistinct(acc, threads, rules, oks);
    }
  }
}
