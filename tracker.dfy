/**
  The live-state tracker of the poll loop: the set of usernames currently
  believed to be streaming, and what one answer of the streaming platform does
  to it. A poll cycle visits the registry entries in order and feeds each
  answer to `Step`; `Cycle` is that fold, and the specification of the
  imperative poll method.
 */
module Tracker {

  import opened Wrappers
  import opened Registry

  /** A live stream as the streams endpoint reports it; only its title is used. */
  datatype Stream = Stream(title: string)

  /** One announcement sent to the configured channel. */
  datatype Notification = Notification(username: Username, title: string, url: string, message: string)

  /** The tracker's state after some answers, with the announcements sent on the way. */
  datatype Outcome = Outcome(live: set<Username>, sent: seq<Notification>)

  /** Prefix of a channel's address on the streaming platform (bot.py:93). */
  const ChannelBase: string := "https://twitch.tv/"

  /** `t` occurs in `s` starting at index `i`. */
  ghost predicate OccursAt(s: string, t: string, i: int)
  {
    0 <= i && i + |t| <= |s| && s[i..i + |t|] == t
  }

  /** `t` occurs in `s` as a contiguous piece. */
  ghost predicate Contains(s: string, t: string)
  {
    exists i :: OccursAt(s, t, i)
  }

  const Bold: string := "**"
  const SetSail: string := "** has set sail!\n**"
  const TitleEnd: string := "**\n"

  /** The announcement text (bot.py:94-98), without its decorative emoji. */
  function Message(username: Username, title: string, url: string): (text: string)
  {
    Bold + username + SetSail + title + TitleEnd + url
  }

  /** The announcement text names the user, the stream's title and the channel's address. */
  lemma MessageMentions(username: Username, title: string, url: string)
    ensures Contains(Message(username, title, url), username)
    ensures Contains(Message(username, title, url), title)
    ensures Contains(Message(username, title, url), url)
  {
    var m := Message(username, title, url);
    var i := |Bold|;
    var j := |Bold| + |username| + |SetSail|;
    var k := |m| - |url|;
    assert m[i..i + |username|] == username;
    assert m[j..j + |title|] == title;
    assert m[k..k + |url|] == url;
    assert OccursAt(m, username, i) && OccursAt(m, title, j) && OccursAt(m, url, k);
  }

  /** The announcement for `username` going live with a stream titled `title` (bot.py:92-98). */
  function Announcement(username: Username, title: string): (n: Notification)
    ensures n.username == username && n.title == title
    ensures n.url == "https://twitch.tv/" + username
    ensures Contains(n.message, username) && Contains(n.message, title) && Contains(n.message, n.url)
  {
    var url := ChannelBase + username;
    MessageMentions(username, title, url);
    Notification(username, title, url, Message(username, title, url))
  }

  /**
    One answer for `username` (bot.py:90-100). Live and not yet marked: mark it
    and announce once. Not live and marked: clear the mark. Otherwise nothing.
   */
  function Step(live: set<Username>, username: Username, answer: Option<Stream>): (r: Outcome)
    ensures answer.Some? && username !in live ==>
      r.live == live + {username} && r.sent == [Announcement(username, answer.value.title)]
    ensures answer.Some? && username in live ==> r.live == live && r.sent == []
    ensures answer.None? ==> r.live == live - {username} && r.sent == []
    ensures username in r.live <==> answer.Some?
    ensures r.live - {username} == live - {username}
  {
    if answer.Some? && username !in live then
      Outcome(live + {username}, [Announcement(username, answer.value.title)])
    else if answer.None? && username in live then
      Outcome(live - {username}, [])
    else
      Outcome(live, [])
  }

  /** The usernames of a registry. */
  function Usernames(es: seq<Entry>): (names: set<Username>)
  {
    set i | 0 <= i < |es| :: es[i].username
  }

  /** The usernames whose answer in this cycle was live. */
  function LiveNames(es: seq<Entry>, answers: seq<Option<Stream>>): (names: set<Username>)
    requires |answers| == |es|
  {
    set i | 0 <= i < |es| && answers[i].Some? :: es[i].username
  }

  /** Announcement `n` was caused by some visit whose answer was live with `n`'s title. */
  ghost predicate Triggered(es: seq<Entry>, answers: seq<Option<Stream>>, n: Notification)
    requires |answers| == |es|
  {
    exists i :: 0 <= i < |es| && es[i].username == n.username && answers[i] == Some(Stream(n.title))
  }

  /** How the sets above and `Triggered` grow by one entry. */
  lemma Snoc(es: seq<Entry>, answers: seq<Option<Stream>>)
    requires |answers| == |es| && es != []
    ensures var n := |es| - 1;
      && Usernames(es) == Usernames(es[..n]) + {es[n].username}
      && LiveNames(es, answers) == LiveNames(es[..n], answers[..n]) + (if answers[n].Some? then {es[n].username} else {})
      && forall m :: Triggered(es[..n], answers[..n], m) ==> Triggered(es, answers, m)
  {
    var n := |es| - 1;
    forall m | Triggered(es[..n], answers[..n], m)
      ensures Triggered(es, answers, m)
    {
      var i :| 0 <= i < n && es[..n][i].username == m.username && answers[..n][i] == Some(Stream(m.title));
      assert es[i] == es[..n][i] && answers[i] == answers[..n][i];
    }
    assert Usernames(es) == Usernames(es[..n]) + {es[n].username} by {
      forall v | v in Usernames(es) ensures v in Usernames(es[..n]) + {es[n].username} {
        var i :| 0 <= i < |es| && es[i].username == v;
        if i < n { assert es[..n][i] == es[i]; }
      }
      forall v | v in Usernames(es[..n]) ensures v in Usernames(es) {
        var i :| 0 <= i < n && es[..n][i].username == v;
        assert es[i] == es[..n][i];
      }
    }
    assert LiveNames(es, answers) == LiveNames(es[..n], answers[..n]) + (if answers[n].Some? then {es[n].username} else {}) by {
      forall v | v in LiveNames(es, answers)
        ensures v in LiveNames(es[..n], answers[..n]) + (if answers[n].Some? then {es[n].username} else {})
      {
        var i :| 0 <= i < |es| && answers[i].Some? && es[i].username == v;
        if i < n { assert es[..n][i] == es[i] && answers[..n][i] == answers[i]; }
      }
      forall v | v in LiveNames(es[..n], answers[..n]) ensures v in LiveNames(es, answers) {
        var i :| 0 <= i < n && answers[..n][i].Some? && es[..n][i].username == v;
        assert es[i] == es[..n][i] && answers[i] == answers[..n][i];
      }
    }
  }

  /**
    One poll cycle (bot.py:82-100): the answers are those of the streaming
    platform for the entries, visit by visit, each fed to `Step` in turn.
   */
  function Cycle(live: set<Username>, es: seq<Entry>, answers: seq<Option<Stream>>): (r: Outcome)
    requires |answers| == |es|
    decreases |es|
  {
    if es == [] then Outcome(live, [])
    else
      var n := |es| - 1;
      var before := Cycle(live, es[..n], answers[..n]);
      var step := Step(before.live, es[n].username, answers[n]);
      Outcome(step.live, before.sent + step.sent)
  }

  /**
    What a cycle does: with nobody registered nothing changes; only visited
    usernames change state, and only to live if some answer for them was
    live; at most one announcement per visit; every announcement is well
    formed and caused by a live answer for its username with its title.
   */
  lemma {:induction false} CycleEffects(live: set<Username>, es: seq<Entry>, answers: seq<Option<Stream>>)
    requires |answers| == |es|
    ensures var r := Cycle(live, es, answers);
      && (es == [] ==> r == Outcome(live, []))
      && r.live - Usernames(es) == live - Usernames(es)
      && r.live <= live + LiveNames(es, answers)
      && |r.sent| <= |es|
      && forall k :: 0 <= k < |r.sent| ==>
        r.sent[k] == Announcement(r.sent[k].username, r.sent[k].title) && Triggered(es, answers, r.sent[k])
  {
    if es != [] {
      var n := |es| - 1;
      CycleEffects(live, es[..n], answers[..n]);
      var before := Cycle(live, es[..n], answers[..n]);
      var step := Step(before.live, es[n].username, answers[n]);
      var r := Cycle(live, es, answers);
      Snoc(es, answers);
      assert step.sent != [] ==> Triggered(es, answers, step.sent[0]);
      assert step.live - Usernames(es) == (before.live - Usernames(es[..n])) - {es[n].username};
      forall k | 0 <= k < |r.sent|
        ensures r.sent[k] == Announcement(r.sent[k].username, r.sent[k].title) && Triggered(es, answers, r.sent[k])
      {
        if k < |before.sent| {
          assert r.sent[k] == before.sent[k];
        }
      }
    }
  }

  /** Extending a cycle by one more visit is one more `Step`. */
  lemma CycleSnoc(live: set<Username>, es: seq<Entry>, answers: seq<Option<Stream>>, i: nat)
    requires |answers| == |es| && i < |es|
    ensures var before := Cycle(live, es[..i], answers[..i]);
      var step := Step(before.live, es[i].username, answers[i]);
      Cycle(live, es[..i + 1], answers[..i + 1]) == Outcome(step.live, before.sent + step.sent)
  {
    assert es[..i + 1][..i] == es[..i] && answers[..i + 1][..i] == answers[..i];
  }

  /**
    Membership tracks the latest answer: after a cycle, a username is marked
    live exactly when the answer at its last visit was live.
   */
  lemma {:induction false} CycleTracksLatest(live: set<Username>, es: seq<Entry>, answers: seq<Option<Stream>>, i: nat)
    requires |answers| == |es| && i < |es|
    requires forall j :: i < j < |es| ==> es[j].username != es[i].username
    ensures es[i].username in Cycle(live, es, answers).live <==> answers[i].Some?
  {
    var n := |es| - 1;
    if i < n {
      assert es[..n][i] == es[i] && answers[..n][i] == answers[i];
      CycleTracksLatest(live, es[..n], answers[..n], i);
    }
  }

  /** The answers agree on liveness for every username visited more than once. */
  ghost predicate Consistent(es: seq<Entry>, answers: seq<Option<Stream>>)
    requires |answers| == |es|
  {
    forall i, j :: 0 <= i < |es| && 0 <= j < |es| && es[i].username == es[j].username ==>
      answers[i].Some? == answers[j].Some?
  }

  /** The usernames announced. */
  function Announced(sent: seq<Notification>): (names: set<Username>)
  {
    set k | 0 <= k < |sent| :: sent[k].username
  }

  /** No username is announced twice. */
  ghost predicate DistinctAnnouncements(sent: seq<Notification>)
  {
    forall k, l :: 0 <= k < l < |sent| ==> sent[k].username != sent[l].username
  }

  lemma AnnouncedAppend(a: seq<Notification>, b: seq<Notification>)
    ensures Announced(a + b) == Announced(a) + Announced(b)
  {
    var c := a + b;
    forall v | v in Announced(c) ensures v in Announced(a) + Announced(b) {
      var k :| 0 <= k < |c| && c[k].username == v;
      if k >= |a| { assert b[k - |a|] == c[k]; }
    }
    forall v | v in Announced(b) ensures v in Announced(c) {
      var k :| 0 <= k < |b| && b[k].username == v;
      assert c[|a| + k] == b[k];
    }
    forall v | v in Announced(a) ensures v in Announced(c) {
      var k :| 0 <= k < |a| && a[k].username == v;
      assert c[k] == a[k];
    }
  }

  lemma DistinctSnoc(a: seq<Notification>, x: Notification)
    requires DistinctAnnouncements(a) && x.username !in Announced(a)
    ensures DistinctAnnouncements(a + [x])
  {
    var c := a + [x];
    forall k, l | 0 <= k < l < |c| ensures c[k].username != c[l].username {
      assert c[k] == a[k];
      if l < |a| { assert c[l] == a[l]; }
    }
  }

  /** Every username announced in a cycle had a live answer in it. */
  lemma AnnouncedAreLive(live: set<Username>, es: seq<Entry>, answers: seq<Option<Stream>>)
    requires |answers| == |es|
    ensures Announced(Cycle(live, es, answers).sent) <= LiveNames(es, answers)
  {
    var sent := Cycle(live, es, answers).sent;
    CycleEffects(live, es, answers);
    forall v | v in Announced(sent) ensures v in LiveNames(es, answers) {
      var k :| 0 <= k < |sent| && sent[k].username == v;
      assert Triggered(es, answers, sent[k]);
    }
  }

  lemma ConsistentPrefix(es: seq<Entry>, answers: seq<Option<Stream>>, n: nat)
    requires |answers| == |es| && n <= |es| && Consistent(es, answers)
    ensures Consistent(es[..n], answers[..n])
  {
    forall i, j | 0 <= i < n && 0 <= j < n && es[..n][i].username == es[..n][j].username
      ensures answers[..n][i].Some? == answers[..n][j].Some?
    {
      assert es[..n][i] == es[i] && es[..n][j] == es[j];
    }
  }

  /** Under consistent answers, a visited username is among the live ones exactly when its answer was live. */
  lemma LiveNameConsistent(es: seq<Entry>, answers: seq<Option<Stream>>, i: nat)
    requires |answers| == |es| && i < |es| && Consistent(es, answers)
    ensures es[i].username in LiveNames(es, answers) <==> answers[i].Some?
  {
    if es[i].username in LiveNames(es, answers) {
      var j :| 0 <= j < |es| && answers[j].Some? && es[j].username == es[i].username;
    }
  }

  /**
    When the platform gives the same liveness for a username throughout a cycle
    (as when several chat users track one stream), the cycle marks exactly the
    live usernames among those visited, announces each newly live username
    exactly once, and announces no username that was already marked.
   */
  lemma {:induction false} CycleConsistent(live: set<Username>, es: seq<Entry>, answers: seq<Option<Stream>>)
    requires |answers| == |es| && Consistent(es, answers)
    ensures var r := Cycle(live, es, answers);
      && r.live == (live - Usernames(es)) + LiveNames(es, answers)
      && Announced(r.sent) == LiveNames(es, answers) - live
      && DistinctAnnouncements(r.sent)
  {
    if es != [] {
      var n := |es| - 1;
      var u := es[n].username;
      ConsistentPrefix(es, answers, n);
      CycleConsistent(live, es[..n], answers[..n]);
      Snoc(es, answers);
      AnnouncedAreLive(live, es[..n], answers[..n]);
      var before := Cycle(live, es[..n], answers[..n]);
      var step := Step(before.live, u, answers[n]);
      var r := Cycle(live, es, answers);
      assert r == Outcome(step.live, before.sent + step.sent);
      AnnouncedAppend(before.sent, step.sent);
      if u in Usernames(es[..n]) {
        var i :| 0 <= i < n && es[..n][i].username == u;
        assert es[i] == es[..n][i] && answers[i] == answers[..n][i];
        LiveNameConsistent(es[..n], answers[..n], i);
        assert answers[i].Some? == answers[n].Some?;
        assert u in before.live <==> answers[n].Some?;
        assert step.sent == [];
        assert before.sent + step.sent == before.sent;
      } else if answers[n].Some? && u !in live {
        DistinctSnoc(before.sent, step.sent[0]);
      } else {
        assert step.sent == [];
        assert before.sent + step.sent == before.sent;
      }
    }
  }

  /** A username's state over successive poll answers, e.g. one per minute. */
  function Track(live: set<Username>, username: Username, answers: seq<Option<Stream>>): (r: Outcome)
    ensures r.live - {username} == live - {username}
    ensures username in r.live <==> if answers == [] then username in live else answers[|answers| - 1].Some?
    ensures forall k :: 0 <= k < |r.sent| ==> r.sent[k].username == username
  {
    if answers == [] then Outcome(live, [])
    else
      var n := |answers| - 1;
      var before := Track(live, username, answers[..n]);
      var step := Step(before.live, username, answers[n]);
      Outcome(step.live, before.sent + step.sent)
  }

  /**
    A cycle over entries that all track the same username is that username's
    `Track`: duplicate registrations are visited one after the other.
   */
  lemma {:induction false} CycleOfOneUsername(live: set<Username>, username: Username, es: seq<Entry>, answers: seq<Option<Stream>>)
    requires |answers| == |es|
    requires forall i :: 0 <= i < |es| ==> es[i].username == username
    ensures Cycle(live, es, answers) == Track(live, username, answers)
  {
    if es != [] {
      var n := |es| - 1;
      CycleOfOneUsername(live, username, es[..n], answers[..n]);
    }
  }

  /**
    Two chat users registered with the same username whose stream is live:
    one announcement in the cycle, with the first answer's title (bot.py:82, bot.py:90-91).
   */
  lemma DuplicateRegistrationAnnouncedOnce(live: set<Username>, a: UserId, b: UserId, username: Username, first: Stream, second: Stream)
    requires username !in live
    ensures var r := Cycle(live, [Entry(a, username), Entry(b, username)], [Some(first), Some(second)]);
      r.sent == [Announcement(username, first.title)] && r.live == live + {username}
  {
    var es := [Entry(a, username), Entry(b, username)];
    var answers := [Some(first), Some(second)];
    CycleOfOneUsername(live, username, es, answers);
    assert answers[..1] == [Some(first)] && answers[..1][..0] == [];
    var once := Track(live, username, answers[..1]);
    assert Track(live, username, answers[..1][..0]) == Outcome(live, []);
    assert [] + Step(live, username, Some(first)).sent == Step(live, username, Some(first)).sent;
    assert once == Step(live, username, Some(first));
    assert once.sent == [Announcement(username, first.title)] && username in once.live;
  }

  /** The liveness flags seen: the initial state, then one per answer. */
  function Flags(initial: bool, answers: seq<Option<Stream>>): (b: seq<bool>)
    ensures |b| == |answers| + 1 && b[0] == initial
    ensures forall i :: 0 <= i < |answers| ==> b[i + 1] == answers[i].Some?
  {
    [initial] + seq(|answers|, i requires 0 <= i < |answers| => answers[i].Some?)
  }

  /** Position `k` of a run of liveness flags is offline and the next one live. */
  ghost predicate RiseAt(b: seq<bool>, k: int)
  {
    0 <= k < |b| - 1 && !b[k] && b[k + 1]
  }

  /** The number of offline-to-live transitions in a run of liveness flags. */
  ghost function Rises(b: seq<bool>): (count: nat)
  {
    |set k | 0 <= k < |b| && RiseAt(b, k)|
  }

  lemma RisesSnoc(b: seq<bool>, x: bool)
    requires b != []
    ensures Rises(b + [x]) == Rises(b) + if !b[|b| - 1] && x then 1 else 0
  {
    var c := b + [x];
    var before := set k | 0 <= k < |b| && RiseAt(b, k);
    var after := set k | 0 <= k < |c| && RiseAt(c, k);
    assert forall k :: 0 <= k < |b| - 1 ==> (RiseAt(c, k) <==> RiseAt(b, k));
    if !b[|b| - 1] && x {
      assert after == before + {|b| - 1};
    } else {
      assert after == before;
    }
  }

  /**
    Over successive answers for one username, the number of announcements is
    the number of offline-to-live transitions (one per live session).
   */
  lemma {:induction false} TrackCountsSessions(live: set<Username>, username: Username, answers: seq<Option<Stream>>)
    ensures |Track(live, username, answers).sent| == Rises(Flags(username in live, answers))
  {
    if answers == [] {
      var b := Flags(username in live, answers);
      assert (set k | 0 <= k < |b| && RiseAt(b, k)) == {};
    } else {
      var n := |answers| - 1;
      TrackCountsSessions(live, username, answers[..n]);
      var b := Flags(username in live, answers[..n]);
      assert Flags(username in live, answers) == b + [answers[n].Some?];
      RisesSnoc(b, answers[n].Some?);
    }
  }

  /** Answers live, live, live, offline, live from offline: two announcements. */
  lemma TwoSessionsExample(username: Username, s: Stream)
    ensures |Track({}, username, [Some(s), Some(s), Some(s), None, Some(s)]).sent| == 2
  {
    var answers := [Some(s), Some(s), Some(s), None, Some(s)];
    TrackCountsSessions({}, username, answers);
    var b := Flags(false, answers);
    assert b == [false, true, true, true, false, true];
    assert (set k | 0 <= k < |b| && RiseAt(b, k)) == {0, 4};
  }

  /**
    An answer without a stream in between two live answers, such as an error
    reply whose body has no `data` list, clears the mark, so the same session
    is announced a second time.
   */
  lemma ErrorReadAsOfflineReannounces(username: Username, s: Stream)
    ensures |Track({}, username, [Some(s), None, Some(s)]).sent| == 2
  {
    var answers := [Some(s), None, Some(s)];
    TrackCountsSessions({}, username, answers);
    var b := Flags(false, answers);
    assert b == [false, true, false, true];
    assert (set k | 0 <= k < |b| && RiseAt(b, k)) == {0, 2};
  }
}
