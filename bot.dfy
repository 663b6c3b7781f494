/** The bot object: its table of followed users (kept in step with the state
    file after every change) and one method per phase of the daily cycle.
    Everything the platform, the clock and the random generator contribute
    comes in as parameters; each method is proved to do exactly what the
    matching function of `Phases` describes. */
module InstagramBot {
  import opened Timestamps
  import opened FollowStore
  import opened Triggers
  import opened Settings
  import opened Phases

  /** One step of a daily cycle, with what it achieved: the follow and
      unfollow counts, the story replies, DM replies and comments sent, and
      the randomised pause between two phases. */
  datatype Activity =
    | Follow(followed: nat)
    | Pause
    | Unfollow(unfollowed: nat)
    | StoryReplies(replies: seq<(string, string)>)
    | MessageReplies(dm: DmResult)
    | Comments(comments: seq<(string, string)>)

  /** What the outside world hands one daily cycle: for each phase, what the
      client returned and how each client call ended, the clock reading the
      unfollow phase takes, and the random draws for response texts. */
  datatype World = World(
    followers: seq<Candidate>, followReplies: seq<FollowReply>,
    now: Stamp, friendship: string -> Friendship, unfollowReplies: string -> UnfollowReply,
    stories: seq<seq<string>>, storyDraw: string -> nat, storyOk: string -> bool,
    inbox: seq<Thread>, sendOk: seq<seq<bool>>,
    posts: seq<string>, commentDraw: string -> nat, commentOk: string -> bool)

  class Bot {
    const config: Config
    /** `followed_users`: its keys in iteration order, and its entries. */
    var order: seq<string>
    var followed: map<string, Stamp>
    /** The content of `followed_users.json`. */
    var file: Disk

    function Records(): Table
      reads this
    {
      Table(order, followed)
    }

    ghost predicate Valid()
      reads this
    {
      Tracks(Records())
    }

    /** `__init__`: the table starts as whatever the state file loads as. */
    constructor (config: Config, file: Disk)
      ensures Valid() && this.config == config && this.file == file
      ensures Records() == Load(file)
    {
      this.config := config;
      this.file := file;
      var t := Load(file);
      order, followed := t.order, t.followed;
    }

    /** `save_followed_users`, ending with `result`; a failure is only logged. */
    method SaveFollowedUsers(result: SaveResult)
      requires Valid()
      modifies this`file
      ensures file == Save(Records(), old(file), result)
      ensures result == Written ==> InSync(Records(), file)
    {
      SaveSpec(Records(), file, result);
      file := Save(Records(), file, result);
    }

    /** `follow_users`, over the follower list `pool` of the chosen target
        account, `replies[i]` being how following `pool[i]` ends. */
    method FollowUsers(pool: seq<Candidate>, replies: seq<FollowReply>) returns (followedCount: nat)
      requires Valid() && |replies| == |pool|
      modifies this`order, this`followed, this`file
      ensures Valid()
      ensures Progress(Records(), file, followedCount)
              == FollowPhase(old(Records()), old(file), config.followLimit, pool, replies)
      ensures followedCount <= config.followLimit
    {
      var limit := config.followLimit;
      var followers := Take(pool, limit + FollowOverfetch);
      var outcomes := Take(replies, limit + FollowOverfetch);
      ghost var goal := FollowPhase(Records(), file, limit, pool, replies);
      followedCount := 0;
      var i := 0;
      while i < |followers|
        invariant 0 <= i <= |followers|
        invariant Valid() && followedCount <= limit
        invariant goal == Follows(Progress(Records(), file, followedCount), limit, followers[i..], outcomes[i..])
      {
        if followedCount >= limit {
          FollowsSaturated(Progress(Records(), file, followedCount), limit, followers[i..], outcomes[i..]);
          break;
        }
        followedCount := FollowCandidate(followers[i], outcomes[i], limit, followedCount);
        assert followers[i..][1..] == followers[i + 1..] && outcomes[i..][1..] == outcomes[i + 1..];
        i := i + 1;
      }
    }

    /** One turn of the `follow_users` loop below the limit: an eligible
        user whose follow succeeds is recorded with the follow time, counted
        and saved; anything else changes nothing. */
    method FollowCandidate(user: Candidate, outcome: FollowReply, limit: nat, count: nat) returns (followedCount: nat)
      requires Valid() && count < limit
      modifies this`order, this`followed, this`file
      ensures Valid()
      ensures Progress(Records(), file, followedCount)
              == FollowStep(Progress(old(Records()), old(file), count), limit, user, outcome)
    {
      followedCount := count;
      if !user.isFollowed && !user.isPrivate {
        match outcome
        case FollowRaised =>
        case Followed(now, save) =>
          ghost var before := Records();
          PutSpec(before, user.pk, now);
          if user.pk !in followed {
            order := order + [user.pk];
          }
          followed := followed[user.pk := now];
          assert Records() == Put(before, user.pk, now);
          followedCount := followedCount + 1;
          SaveFollowedUsers(save);
      }
    }

    /** The first half of `unfollow_non_followers`: the ids of the table, in
        iteration order, followed at least two days before `now` and whose
        friendship check reports no follow back. Nothing is changed. */
    method StaleFollows(now: Stamp, friendship: string -> Friendship) returns (toUnfollow: seq<string>)
      requires forall k :: k in order ==> k in followed
      ensures toUnfollow == Selected(order, followed, now, friendship)
    {
      var ids, times := order, followed;
      toUnfollow := [];
      var i := 0;
      while i < |ids|
        invariant 0 <= i <= |ids|
        invariant toUnfollow == Selected(ids[..i], times, now, friendship)
      {
        var userId := ids[i];
        var followTime := times[userId];
        assert ids[..i + 1] == ids[..i] + [userId];
        SelectedAppend(ids[..i], [userId], times, now, friendship);
        var stale := IsStale(followTime, now, friendship, userId);
        if stale {
          toUnfollow := toUnfollow + [userId];
        }
        i := i + 1;
      }
      assert ids[..i] == ids;
    }

    /** The test of one entry: the friendship check is only made when the
        entry is old enough, and a check that raises leaves it alone. */
    method IsStale(followTime: Stamp, now: Stamp, friendship: string -> Friendship, userId: string)
      returns (stale: bool)
      ensures stale <==> OldEnough(followTime, now) && friendship(userId) == NoFollowBack
    {
      stale := false;
      if OldEnough(followTime, now) {
        match friendship(userId)
        case NoFollowBack =>
          stale := true;
        case FollowsBack =>
        case CheckRaised =>
      }
    }

    /** `unfollow_non_followers` at time `now`; `friendship(id)` is what the
        friendship check reports for `id`, `unfollow(id)` how unfollowing it
        ends. The selection is complete before the first deletion. */
    method UnfollowNonFollowers(now: Stamp, friendship: string -> Friendship, unfollow: string -> UnfollowReply)
      returns (unfollowedCount: nat)
      requires Valid()
      modifies this`order, this`followed, this`file
      ensures Valid()
      ensures Progress(Records(), file, unfollowedCount)
              == UnfollowPhase(old(Records()), old(file), config.unfollowLimit, now, friendship, unfollow)
      ensures unfollowedCount <= config.unfollowLimit
    {
      UnfollowPhaseSpec(Records(), file, config.unfollowLimit, now, friendship, unfollow);
      var toUnfollow := StaleFollows(now, friendship);
      unfollowedCount := UnfollowAll(toUnfollow, unfollow);
    }

    /** The second half of `unfollow_non_followers`: unfollow the selected
        ids in order, up to the limit, deleting each id whose unfollow
        succeeds and saving after each deletion. */
    method UnfollowAll(toUnfollow: seq<string>, unfollow: string -> UnfollowReply) returns (unfollowedCount: nat)
      requires Valid()
      modifies this`order, this`followed, this`file
      ensures Valid()
      ensures Progress(Records(), file, unfollowedCount)
              == Unfollows(Progress(old(Records()), old(file), 0), config.unfollowLimit, toUnfollow, unfollow)
    {
      var limit := config.unfollowLimit;
      ghost var goal := Unfollows(Progress(Records(), file, 0), limit, toUnfollow, unfollow);
      unfollowedCount := 0;
      var j := 0;
      while j < |toUnfollow|
        invariant 0 <= j <= |toUnfollow|
        invariant Valid()
        invariant goal == Unfollows(Progress(Records(), file, unfollowedCount), limit, toUnfollow[j..], unfollow)
      {
        if unfollowedCount >= limit {
          UnfollowsSaturated(Progress(Records(), file, unfollowedCount), limit, toUnfollow[j..], unfollow);
          break;
        }
        var userId := toUnfollow[j];
        ghost var before := Progress(Records(), file, unfollowedCount);
        assert goal == Unfollows(UnfollowStep(before, limit, userId, unfollow(userId)), limit, toUnfollow[j + 1..], unfollow) by {
          assert toUnfollow[j..][1..] == toUnfollow[j + 1..];
        }
        match unfollow(userId) {
          case UnfollowRaised =>
          case Unfollowed(save) =>
            if userId in followed {
              DeleteSpec(Records(), userId);
              var t := Delete(Records(), userId);
              order, followed := t.order, t.followed;
              unfollowedCount := unfollowedCount + 1;
              SaveFollowedUsers(save);
            }
        }
        assert Progress(Records(), file, unfollowedCount) == UnfollowStep(before, limit, userId, unfollow(userId));
        j := j + 1;
      }
    }

    /** `reply_to_stories`: `stories[u]` are the stories of the `u`-th
        followed user with stories, `draw(id)` the random draw of a response
        for story `id`, `reactOk(id)` whether reacting to it succeeds. */
    method ReplyToStories(stories: seq<seq<string>>, draw: string -> nat, reactOk: string -> bool)
      returns (sent: seq<(string, string)>)
      ensures sent == StoryPhase(config.storyReplyLimit, stories, config.storyResponses, draw, reactOk)
      ensures |sent| <= config.storyReplyLimit
    {
      var limit := config.storyReplyLimit;
      var responses := config.storyResponses;
      ghost var goal := StoryPhase(limit, stories, responses, draw, reactOk);
      sent := [];
      var repliedCount := 0;
      var u := 0;
      while u < |stories|
        invariant 0 <= u <= |stories|
        invariant repliedCount == |sent| <= limit
        invariant goal == Reacting(sent, limit, Flatten(stories[u..]), responses, draw, reactOk)
      {
        assert stories[u..][1..] == stories[u + 1..];
        ReactingAppend(sent, limit, stories[u], Flatten(stories[u + 1..]), responses, draw, reactOk);
        sent, repliedCount := ReplyToUser(sent, repliedCount, limit, stories[u], responses, draw, reactOk);
        u := u + 1;
      }
    }

    /** The inner loop of `reply_to_stories` over one user's stories, with
        the counter shared by all users; reaching the limit leaves this
        loop. */
    method ReplyToUser(sent0: seq<(string, string)>, count0: nat, limit: nat, userStories: seq<string>,
                       responses: seq<string>, draw: string -> nat, reactOk: string -> bool)
      returns (sent: seq<(string, string)>, repliedCount: nat)
      requires count0 == |sent0| <= limit
      ensures sent == Reacting(sent0, limit, userStories, responses, draw, reactOk)
      ensures repliedCount == |sent| <= limit
    {
      sent, repliedCount := sent0, count0;
      var s := 0;
      while s < |userStories|
        invariant 0 <= s <= |userStories|
        invariant repliedCount == |sent| <= limit
        invariant Reacting(sent, limit, userStories[s..], responses, draw, reactOk)
                  == Reacting(sent0, limit, userStories, responses, draw, reactOk)
      {
        if repliedCount >= limit {
          ReactingSaturated(sent, limit, userStories[s..], responses, draw, reactOk);
          return;
        }
        assert userStories[s..][1..] == userStories[s + 1..];
        sent, repliedCount := React(sent, repliedCount, userStories[s], responses, draw, reactOk);
        s := s + 1;
      }
    }

    /** The body of the story-reply and comment loops below the limit: a
        text drawn at random from `texts` is sent on `item` and counted; a
        draw or a send that raises skips the item uncounted. */
    method React(sent0: seq<(string, string)>, count0: nat, item: string, texts: seq<string>,
                 draw: string -> nat, ok: string -> bool)
      returns (sent: seq<(string, string)>, count: nat)
      requires count0 == |sent0|
      ensures sent == sent0 + Reaction(item, texts, draw, ok)
      ensures count == |sent|
    {
      sent, count := sent0, count0;
      var text := Choice(texts, draw(item));
      if text.Some? && ok(item) {
        sent := sent + [(item, text.value)];
        count := count + 1;
      }
    }

    /** `handle_direct_messages` over the account's `inbox`, newest first;
        `sendOk[i][j]` says whether sending rule `j`'s response in thread
        `i` succeeds. */
    method HandleDirectMessages(inbox: seq<Thread>, sendOk: seq<seq<bool>>) returns (result: DmResult)
      requires |sendOk| == |inbox|
      ensures result == DmPhase(inbox, config.autoResponses, sendOk)
      ensures |result.sent| <= ThreadFetch
    {
      var rules := config.autoResponses;
      var threads := Take(inbox, ThreadFetch);
      var oks := Take(sendOk, ThreadFetch);
      ghost var goal := DmPhase(inbox, rules, sendOk);
      DmPhaseSpec(inbox, rules, sendOk);
      var sent: seq<(string, string)> := [];
      var respondedCount := 0;
      var aborted := false;
      var t := 0;
      while t < |threads|
        invariant 0 <= t <= |threads|
        invariant respondedCount == |sent|
        invariant goal == DmLoop(DmResult(sent, false), threads[t..], rules, oks[t..])
      {
        var thread := threads[t];
        ghost var before := DmResult(sent, false);
        assert goal == DmLoop(DmStep(before, thread, rules, oks[t]), threads[t + 1..], rules, oks[t + 1..]) by {
          assert threads[t..][1..] == threads[t + 1..] && oks[t..][1..] == oks[t + 1..];
        }
        match thread.last {
          case NoItem =>
          case NoText =>
            aborted := true;
            break;
          case Message(text) =>
            var lastMessage := Lower(text);
            var j := 0;
            while j < |rules|
              invariant 0 <= j <= |rules|
              invariant FirstAnswer(lastMessage, rules, oks[t], 0) == FirstAnswer(lastMessage, rules, oks[t], j)
            {
              if Contains(lastMessage, rules[j].trigger) && SendOk(oks[t], j) {
                sent := sent + [(thread.id, rules[j].response)];
                respondedCount := respondedCount + 1;
                break;
              }
              j := j + 1;
            }
        }
        t := t + 1;
      }
      result := DmResult(sent, aborted);
    }

    /** `comment_on_posts` over the media list `posts` of the chosen target
        account, newest first; `draw(id)` is the random draw of a template
        for post `id`, `commentOk(id)` whether commenting on it succeeds. */
    method CommentOnPosts(posts: seq<string>, draw: string -> nat, commentOk: string -> bool)
      returns (sent: seq<(string, string)>)
      ensures sent == CommentPhase(config.commentLimit, posts, config.commentTemplates, draw, commentOk)
      ensures |sent| <= Min(config.commentLimit, Min(PostFetch, |posts|))
    {
      var limit := config.commentLimit;
      var templates := config.commentTemplates;
      var media := Take(posts, PostFetch);
      ghost var goal := CommentPhase(limit, posts, templates, draw, commentOk);
      sent := [];
      var commentedCount := 0;
      var i := 0;
      while i < |media|
        invariant 0 <= i <= |media|
        invariant commentedCount == |sent| <= Min(limit, i)
        invariant goal == Reacting(sent, limit, media[i..], templates, draw, commentOk)
      {
        if commentedCount >= limit {
          ReactingSaturated(sent, limit, media[i..], templates, draw, commentOk);
          break;
        }
        assert media[i..][1..] == media[i + 1..];
        sent, commentedCount := React(sent, commentedCount, media[i], templates, draw, commentOk);
        i := i + 1;
      }
    }

    /** `daily_operations`: nothing runs when the login fails; otherwise the
        five phases run in their fixed order with a pause between two
        phases, each phase catching its own errors, so each one runs
        whatever the one before it did. */
    method DailyOperations(loginOk: bool, w: World) returns (log: seq<Activity>)
      requires Valid() && |w.followReplies| == |w.followers| && |w.sendOk| == |w.inbox|
      modifies this`order, this`followed, this`file
      ensures Valid()
      ensures !loginOk ==> log == [] && Records() == old(Records()) && file == old(file)
      ensures loginOk ==>
        var f := FollowPhase(old(Records()), old(file), config.followLimit, w.followers, w.followReplies);
        var u := UnfollowPhase(f.table, f.disk, config.unfollowLimit, w.now, w.friendship, w.unfollowReplies);
        var stories := StoryPhase(config.storyReplyLimit, w.stories, config.storyResponses, w.storyDraw, w.storyOk);
        var messages := DmPhase(w.inbox, config.autoResponses, w.sendOk);
        var comments := CommentPhase(config.commentLimit, w.posts, config.commentTemplates, w.commentDraw, w.commentOk);
        && log == [Follow(f.count), Pause, Unfollow(u.count), Pause, StoryReplies(stories), Pause,
                   MessageReplies(messages), Pause, Comments(comments)]
        && Records() == u.table && file == u.disk
        && f.count <= config.followLimit && u.count <= config.unfollowLimit
        && |stories| <= config.storyReplyLimit && |messages.sent| <= ThreadFetch
        && |comments| <= config.commentLimit
    {
      log := [];
      if !loginOk {
        return;
      }
      ghost var start := Records();
      ghost var startFile := file;
      var followedCount := FollowUsers(w.followers, w.followReplies);
      ghost var f := FollowPhase(start, startFile, config.followLimit, w.followers, w.followReplies);
      assert Records() == f.table && file == f.disk && followedCount == f.count;
      var unfollowedCount := UnfollowNonFollowers(w.now, w.friendship, w.unfollowReplies);
      ghost var u := UnfollowPhase(f.table, f.disk, config.unfollowLimit, w.now, w.friendship, w.unfollowReplies);
      assert Records() == u.table && file == u.disk && unfollowedCount == u.count;
      var stories := ReplyToStories(w.stories, w.storyDraw, w.storyOk);
      var messages := HandleDirectMessages(w.inbox, w.sendOk);
      var comments := CommentOnPosts(w.posts, w.commentDraw, w.commentOk);
      log := [Follow(followedCount), Pause,
              Unfollow(unfollowedCount), Pause,
              StoryReplies(stories), Pause,
              MessageReplies(messages), Pause,
              Comments(comments)];
    }
  }
}
