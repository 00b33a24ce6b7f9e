# NakamaBot live-state tracker, modelled in Dafny

NakamaBot is a Discord bot. It links Discord users to Twitch usernames (the
"nakama" registry) and polls Twitch once a minute. When a tracked user goes
live it posts one announcement to a fixed channel. It clears its marker when
the user goes offline, so the next stream gets announced again.

This project models the logic of `bot.py`:

- `registry.dfy` (module `Registry`): the registry dictionary and its
  backing file. Python dictionaries keep insertion order, and the poll loop
  visits entries in that order. So the registry is a sequence of
  `Entry(id, username)` with unique ids, and `AsMap` gives the dictionary
  view. `Put` is `nakama[id] = name`: an existing key is overwritten where it
  stands, and a new key is appended. `Load` models the startup rule. A
  missing `nakama.json` (`FileNotFoundError`) or text that `json.load`
  rejects (`JSONDecodeError`) gives the empty registry. Otherwise the file's
  members are inserted one after another. For a repeated key the last value
  wins, and the key keeps the place of its first occurrence, which decides the
  order of visits. `Save` writes the whole registry back.
- `tracker.dfy` (module `Tracker`): the set `currently_live` and what one
  Twitch answer does to it (`Step`). `Cycle` folds `Step` over the registry in
  order, so a username marked live on one visit is already marked on a later
  visit in the same cycle. `Track` follows one username over successive
  answers. `Announcement` builds the url `https://twitch.tv/<username>` and the
  message.
- `bot.dfy` (module `Bot`): class `NakamaBot` holds the module-level state
  (`nakama`, `currently_live`, the file's contents). Its methods are the
  registration command and the imperative poll task. The poll loop's invariant
  ties the live set and the messages sent so far to `Cycle` over the entries
  visited so far. Two client methods show which results follow from these
  contracts: a registration followed by three polls, and a poll with nobody
  registered.

The Twitch query is an input. `CheckStreams(answers)` receives one
`Option<Stream>` per registry entry visited: `None` for "not live", and
`Some(Stream(title))` for the first stream record the API returns. Each visit
is a separate request in the source, so two entries for the same username may
get different answers. `CycleConsistent` covers the usual case, where they
agree. Posting to the channel becomes appending to the returned `sent`
sequence. Fetching the token becomes the returned `tokenFetched` flag.

Two behaviours of the code are worth stating outright:

- An error answer from the streams endpoint reads as "offline". `requests.get`
  (bot.py:53) does not raise on an HTTP error status, and a JSON error body
  without a `data` list gives `[]`, so `is_user_live` returns `None`
  (bot.py:54-55). The poll then clears the username's mark (bot.py:99-100),
  and the next live answer announces the same session again. The model
  covers this, since such an answer is simply `None`;
  `Tracker.ErrorReadAsOfflineReannounces` states the repeated announcement.
- Usernames are not deduplicated before polling. Two chat users with the same
  username make the code query Twitch twice. But `currently_live` is updated
  during the loop, so the second visit finds the username already marked.
  When the answers for a username agree within a cycle, it is announced
  exactly when it was answered live and was not marked before, and never
  twice (`DuplicateRegistrationAnnouncedOnce`, `CycleConsistent`).

## Model

| member | source | states |
|---|---|---|
| `Registry.Put` | bot.py:65 | registration keeps unique keys, sets the dictionary view to `old[id := name]`, keeps every other entry and every position, and appends a new key at the end |
| `Registry.ReRegisterKeepsLatest` | bot.py:65 | registering the same chat user twice leaves only the second username, in the place of the first registration |
| `Registry.InsertAll` | bot.py:24 | building the dictionary from a JSON object gives unique keys and the last value for a repeated key; a file without repeated keys is read back exactly, in order |
| `Registry.InsertAllKeepsFirstPlace` | bot.py:24 | when the dictionary is built from a JSON object, a repeated key keeps the place of its first occurrence: the registry lists ids in the order they first occur in the file |
| `Registry.Load` | bot.py:22-26 | a missing or corrupt file gives the empty registry; a JSON object gives its members |
| `Registry.Save` | bot.py:30-32 | what is written is read back as the same registry |
| `Tracker.MessageMentions` | bot.py:94-98 | the announcement text contains the username, the stream title and the url |
| `Tracker.Message` | bot.py:94-98 | the announcement text; its contract is stated by `MessageMentions`: it contains the username, the stream title and the url |
| `Tracker.Announcement` | bot.py:92-98 | the announcement carries the username and title, its url is `https://twitch.tv/` followed by the username, and its message mentions all three |
| `Tracker.Step` | bot.py:90-100 | live and unmarked: mark the username and send exactly one announcement with that stream's title; live and marked: no change, nothing sent; not live: the username is unmarked and nothing is sent; afterwards the username is marked exactly when the answer was live; no other username changes |
| `Tracker.Cycle` | bot.py:82-100 | the loop over the registry as a fold of `Step`, visit by visit; its contract is stated by `CycleSnoc`, `CycleEffects`, `CycleTracksLatest` and `CycleConsistent` (rows below) |
| `Tracker.CycleEffects` | bot.py:74-100 | an empty registry changes nothing and sends nothing; unvisited usernames keep their state; only usernames with a live answer can become marked; no more announcements than visits; each announcement is well formed and comes from a live answer for that username with that title |
| `Tracker.CycleSnoc` | bot.py:82-100 | each visit of the loop applies one step to the state left by the earlier visits, and its announcement follows theirs |
| `Tracker.CycleTracksLatest` | bot.py:82-100 | after a cycle, a username is marked exactly when the answer at its last visit was live |
| `Tracker.CycleConsistent` | bot.py:82-100 | when answers agree per username, the marked set afterwards is the old set minus the visited usernames plus the live ones; the announced usernames are exactly the live ones not marked before; no username is announced twice |
| `Tracker.Track` | bot.py:90-100 | over successive answers for one username, only that username changes, it ends marked exactly when the latest answer was live (or the initial state with no answers), and every announcement is for it |
| `Tracker.CycleOfOneUsername` | bot.py:82-100 | a cycle over entries that all carry one username is that username's successive steps |
| `Tracker.DuplicateRegistrationAnnouncedOnce` | bot.py:82-91 | two chat users with the same unmarked username, both answered live: one announcement, with the first answer's title, and the username is marked |
| `Tracker.TrackCountsSessions` | bot.py:90-100 | the number of announcements over successive answers equals the number of offline-to-live transitions, counting from the initial state |
| `Tracker.TwoSessionsExample` | bot.py:90-100 | answers live, live, live, offline, live from offline give two announcements |
| `Tracker.ErrorReadAsOfflineReannounces` | bot.py:53-55 | an answer without a stream (an error body without `data`) between two live answers clears the mark, so one session is announced twice |
| `Bot.NakamaBot.constructor` | bot.py:22-28 | startup loads the registry from the file and starts with no username marked live |
| `Bot.NakamaBot.RegisterNakama` | bot.py:64-66 | the registry becomes `Put(old, id, name)`, so the dictionary view is `old[id := name]`; the file is rewritten and reads back as the new registry; the live set is untouched |
| `Bot.NakamaBot.CheckStreams` | bot.py:73-100 | a token is fetched exactly when the registry is non-empty; each entry's username is queried once, in order; the new live set and the announcements sent are those of `Cycle` on the old live set |
| `Bot.PirateQueenVoyage` | bot.py:64-100 | register `42` as `piratequeen`; then live, offline and live again give one announcement whose message contains the username, the title and `https://twitch.tv/piratequeen`, then none, then the same announcement again |
| `Bot.EmptyCrewPoll` | bot.py:74-76 | after starting from a missing or corrupt file, a poll requests no token, queries nobody and sends nothing |

## Left out

- Discord plumbing is not modelled: the client, the command tree, `on_ready`, `tree.sync`, `get_channel`, posting to the channel and the reply to a registration (bot.py:17-19, 57-61, 67-70, 80, 94). A post is an append to `sent`. The registration reply is not modelled.
- The Twitch HTTP calls `get_twitch_token` and `is_user_live` (bot.py:34-55) are network I/O. They become the `tokenFetched` result and the `answers` input. A stream record without a `title` field is not modelled.
- Requests that raise are not modelled: a connection failure, a streams reply whose body is not JSON (bot.py:54), and a token reply that is not JSON or has no `access_token` (bot.py:41-42). The source catches none of these, so the exception ends that poll at that point. Error replies with a JSON body do not raise; they are the `None` answer above.
- A failure after a username is marked is not modelled. bot.py:91 adds the username to `currently_live` before the title lookup (bot.py:92) and the post (bot.py:94). A missing `title`, a `None` channel or a failed `channel.send` leaves the username marked with nothing sent, so that live session is never announced. `Tracker.TrackCountsSessions` and the one-announcement-per-session results assume no step fails.
- A failed `save_nakama` (bot.py:66) is not modelled. `open("nakama.json", "w")` (bot.py:31) truncates the file before `json.dump` writes it, so a write that fails part-way leaves an empty or partial file. The next startup reads that as a `JSONDecodeError` (bot.py:25-26) and starts with no registrations at all, while the running bot keeps the dictionary in memory and sends no reply. `Bot.NakamaBot.RegisterNakama` assumes the write succeeds.
- Read failures at startup other than a missing file or a `JSONDecodeError` are not modelled. A `PermissionError`, `IsADirectoryError` or `UnicodeDecodeError` escapes bot.py:22-26 and the bot never starts.
- JSON text and file I/O (bot.py:22-26, 30-32) are represented by the `StoreFile` value. A file holding valid JSON other than an object of strings is not modelled.
- The one-minute timer and async scheduling (bot.py:72) are timing and concurrency. One call of `CheckStreams` is one cycle. A registration that arrives while a cycle is awaiting a post is not modelled.
- Environment configuration (bot.py:10-14) and all `print` logging are left out.
- `Tracker.Message` drops the emoji of the source's text and keeps the username, title and url in the source's order.
