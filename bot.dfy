/**
  The bot's state as the source keeps it in module-level variables: the
  registry dictionary `nakama`, the set `currently_live`, and the backing file
  `nakama.json`. Registration updates the dictionary in place and rewrites the
  file; a poll cycle walks the dictionary and updates the set as it goes.
 */
module Bot {

  import opened Wrappers
  import opened Registry
  import opened Tracker

  class NakamaBot {
    /** The registry, in the dictionary's insertion order. */
    var nakama: seq<Entry>
    /** Usernames currently believed to be streaming. */
    var currentlyLive: set<Username>
    /** What `nakama.json` holds. */
    var storeFile: StoreFile

    ghost predicate Valid()
      reads this
    {
      UniqueIds(nakama)
    }

    /** Startup (bot.py:22-28): load the registry, start with nobody live. */
    constructor (onDisk: StoreFile)
      ensures Valid()
      ensures nakama == Load(onDisk) && currentlyLive == {} && storeFile == onDisk
    {
      nakama := Load(onDisk);
      currentlyLive := {};
      storeFile := onDisk;
    }

    /**
      The registration command (bot.py:64-66): `nakama[userId] = twitchUsername`,
      then the whole registry is written back to the file.
     */
    method RegisterNakama(userId: UserId, twitchUsername: Username)
      requires Valid()
      modifies this`nakama, this`storeFile
      ensures Valid()
      ensures nakama == Put(old(nakama), userId, twitchUsername)
      ensures AsMap(nakama) == old(AsMap(nakama))[userId := twitchUsername]
      ensures storeFile == Save(nakama) && Load(storeFile) == nakama
      ensures currentlyLive == old(currentlyLive)
    {
      nakama := Put(nakama, userId, twitchUsername);
      storeFile := Save(nakama);
    }

    /**
      One run of the poll task (bot.py:73-100). `answers[i]` is what the
      streaming platform returns for the i-th entry visited. Returns whether a
      token was requested, the usernames queried in order, and the
      announcements sent to the channel.
     */
    method CheckStreams(answers: seq<Option<Stream>>) returns (tokenFetched: bool, queried: seq<Username>, sent: seq<Notification>)
      requires Valid()
      requires |answers| == |nakama|
      modifies this`currentlyLive
      ensures tokenFetched <==> nakama != []
      ensures |queried| == |nakama| && forall i :: 0 <= i < |nakama| ==> queried[i] == nakama[i].username
      ensures Outcome(currentlyLive, sent) == Cycle(old(currentlyLive), nakama, answers)
    {
      tokenFetched, queried, sent := false, [], [];
      if nakama == [] {
        return;
      }
      tokenFetched := true;
      for i := 0 to |nakama|
        invariant |queried| == i && forall j :: 0 <= j < i ==> queried[j] == nakama[j].username
        invariant Outcome(currentlyLive, sent) == Cycle(old(currentlyLive), nakama[..i], answers[..i])
      {
        var twitchUsername := nakama[i].username;
        queried := queried + [twitchUsername];
        var stream := answers[i];
        CycleSnoc(old(currentlyLive), nakama, answers, i);
        ghost var sentBefore, step := sent, Step(currentlyLive, twitchUsername, stream);
        if stream.Some? && twitchUsername !in currentlyLive {
          currentlyLive := currentlyLive + {twitchUsername};
          var title := stream.value.title;
          var url := ChannelBase + twitchUsername;
          var announcement := Notification(twitchUsername, title, url, Message(twitchUsername, title, url));
          assert announcement == Announcement(twitchUsername, title);
          sent := sent + [announcement];
        } else if stream.None? && twitchUsername in currentlyLive {
          currentlyLive := currentlyLive - {twitchUsername};
        }
        assert currentlyLive == step.live && sent == sentBefore + step.sent;
      }
      assert nakama[..|nakama|] == nakama && answers[..|answers|] == answers;
    }
  }

  /**
    A crew member registers, goes live, goes offline and goes live again: one
    announcement naming the stream, none, then one more.
   */
  method PirateQueenVoyage() returns (first: seq<Notification>, second: seq<Notification>, third: seq<Notification>)
    ensures |first| == 1 && first[0].username == "piratequeen"
    ensures first[0].title == "Sailing the Grand Line" && first[0].url == "https://twitch.tv/piratequeen"
    ensures Contains(first[0].message, "piratequeen") && Contains(first[0].message, "Sailing the Grand Line")
    ensures Contains(first[0].message, first[0].url)
    ensures second == []
    ensures |third| == 1 && third[0] == first[0]
  {
    var bot := new NakamaBot(Missing);
    bot.RegisterNakama("42", "piratequeen");
    assert bot.nakama == [Entry("42", "piratequeen")];
    var live := Some(Stream("Sailing the Grand Line"));
    var fetched, queried;
    fetched, queried, first := bot.CheckStreams([live]);
    fetched, queried, second := bot.CheckStreams([None]);
    assert "piratequeen" !in bot.currentlyLive;
    fetched, queried, third := bot.CheckStreams([live]);
  }

  /** With nobody registered, a poll run requests no token, queries nobody and sends nothing. */
  method EmptyCrewPoll(onDisk: StoreFile) returns (tokenFetched: bool, queried: seq<Username>, sent: seq<Notification>)
    requires onDisk.Missing? || onDisk.Corrupt?
    ensures !tokenFetched && queried == [] && sent == []
  {
    var bot := new NakamaBot(onDisk);
    tokenFetched, queried, sent := bot.CheckStreams([]);
  }
}
