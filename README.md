# Discord documentation monitor — a Dafny model

The bot keeps a dictionary `tracked_urls` that maps each monitored URL to the
last text fetched from it. It loads that dictionary from a JSON state file at
startup, and rewrites the whole file after every change. Three chat commands
change or read the dictionary:

- `!add <url>` fetches the page and tracks it.
- `!remove <url>` stops tracking it.
- `!list_assets` lists what is tracked.

A timer loop, `monitor_docs`, re-fetches every tracked page once a minute.
When a page's text has changed, it stores the new text, saves the file, and
posts a notification with the diff cut to 1900 characters.

The model has four modules:

- `Messages` (messages.dfy): the reply texts, the list reply and the change
  notification. It also holds `Join`/`Split`, used to show that the list reply
  names exactly the tracked URLs in order.
- `Tracking` (tracking.dfy): the dictionary as a value, written `Snapshot`.
  Because a Python dict keeps insertion order, a dictionary is its key order
  plus its key-to-text map. This module also holds Python truthiness of a
  fetch result and the poll cycle's rules as functions, with lemmas about them.
- `Monitor` (monitor.dfy): class `Tracker`. Its fields `urls` and `content`
  are the dictionary, changed in place by `Add`, `Remove` and `MonitorCycle`.
  The ghost field `saved` is the state file, and `Valid()` requires it to equal
  the dictionary after every operation (write-through).
- `Scenarios` (scenarios.dfy): command sequences a user would issue, proved
  from the contracts alone: add then remove, add twice, add then list.

Everything outside the bot's own code is a parameter:

- The page fetcher (`requests` + BeautifulSoup) is `fetch: Url -> Option<string>`.
- The diff (`difflib`) is `compare: (new, old) -> string`.
- Whether `bot.get_channel` found the channel is `channelFound: bool`.

Command replies are returned as strings instead of going through `ctx.send`.
Notifications posted to the channel are returned as a sequence.

## Model

| member | source | states |
|---|---|---|
| `Messages.Truncate` | monitordiscord.py:59 | `diff_text[:1900]` is a prefix of the diff, of length min(len, 1900), and is the whole diff when that is short enough |
| `Messages.Notification` | monitordiscord.py:59 | a notification is the banner naming the URL, then a diff part, then a closing fence. The diff part is a prefix of the full diff of length min(len, 1900), so the message is at most banner + 1900 + 3 characters |
| `Messages.JoinAppend` | monitordiscord.py:98 | `"\n".join` of a non-empty list with one more part is the join of the list, a separator, then that part; SplitJoin is its inverse |
| `Messages.SplitJoin` | monitordiscord.py:98 | splitting a join of separator-free parts at the separator gives back exactly those parts, in order |
| `Messages.ListMessage` | monitordiscord.py:97-100 | the reply is "No websites are being monitored." exactly when nothing is tracked; otherwise it starts with the list header |
| `Messages.ListMessageLines` | monitordiscord.py:97-100 | when no URL contains a line break, the lines after the header are exactly the tracked URLs in dictionary order |
| `Tracking.Without` | monitordiscord.py:88 | the key order after `del` holds every other key, keeps them unique, is one shorter when the key was present, and is unchanged when it was absent |
| `Tracking.WithoutAt` | monitordiscord.py:88 | deleting a key held once at position i leaves exactly the keys before it followed by the keys after it, in their order |
| `Tracking.WithoutAppended` | monitordiscord.py:78-88 | deleting a key that was just added as new gives back the previous key order |
| `Tracking.NewValue` | monitordiscord.py:54-64 | a polled URL's stored text changes exactly when the fetch gave non-empty text that differs from it, and then becomes that text; it never becomes empty unless it already was |
| `Tracking.Refreshed` | monitordiscord.py:52-65 | a poll cycle keeps the key set. An entry is replaced exactly when its fetch is truthy and differs from it, and then by the fetched text; every other entry is kept |
| `Tracking.Truthy` | monitordiscord.py:77 | the `if content:` test, also the first half of the guard at line 54: Python truthiness of a fetch result: the fetch gave text and the text is not empty, so None and "" both count as failure |
| `Tracking.Changed` | monitordiscord.py:54 | the poll guard `new_content and new_content != old_content` |
| `Tracking.ChangedUrls` | monitordiscord.py:52-54 | a URL is among those the cycle updates iff it is tracked and its fetch is truthy and differs from its stored text. The updated URLs come in dictionary order (a subsequence of it), each once when the keys are unique |
| `Tracking.Notices` | monitordiscord.py:52-60 | the messages a cycle sends, in dictionary order: for each URL meeting the guard, the notification built from `compare_content(new, old)` |
| `Tracking.NoticesMatchChanges` | monitordiscord.py:52-60 | a cycle sends one notification per updated URL, in dictionary order, each carrying `compare_content(new, old)` for that URL |
| `Tracking.NoChangesNoNotices` | monitordiscord.py:53-54 | a cycle where every fetch failed, was empty or was unchanged sends no notification |
| `Tracking.PollTwice` | monitordiscord.py:52-64 | polling again with the same page texts changes no entry and sends nothing |
| `Monitor.Tracker.constructor` | monitordiscord.py:23-27 | at startup the dictionary is the file's contents, or empty when there is no file, and the file agrees with it |
| `Monitor.Tracker.Save` | monitordiscord.py:43-46 | `save_tracked_data` makes the stored file equal to the whole dictionary |
| `Monitor.Tracker.Add` | monitordiscord.py:71-82 | a tracked URL is refused with "already being monitored" and nothing changes. A failed or empty fetch replies with the fetch-failure text and nothing changes. Otherwise the URL is appended, mapped to exactly the fetched text, all other entries are kept, and the file matches |
| `Monitor.Tracker.Remove` | monitordiscord.py:85-92 | a tracked URL is deleted: the contents lose exactly that key, and the key order becomes the keys before it followed by the keys after it. The file matches. An untracked URL gets "not being monitored" and nothing changes |
| `Monitor.Tracker.ListAssets` | monitordiscord.py:95-101 | the reply is the list message for the keys in dictionary order; it is the "none" text exactly when the dictionary is empty |
| `Monitor.Tracker.PollUrl` | monitordiscord.py:53-65 | for one URL: when the fetch is truthy and differs from the stored text, that entry becomes the fetched text, the file matches, and the notice is the notification of `compare_content(new, old)` when the channel was found. Otherwise nothing changes and nothing is sent |
| `Tracking.RefreshStep` | monitordiscord.py:52-64 | polling the next URL changes only that URL's entry. The entry still holds its text from the start of the cycle, because each key is visited once |
| `Monitor.Tracker.MonitorCycle` | monitordiscord.py:50-67 | the key order is unchanged and the contents become `Refreshed` of the old contents. The channel receives the cycle's notifications when it is found and nothing otherwise, and the file matches the dictionary |
| `Scenarios.AddThenRemove` | monitordiscord.py:71-92 | adding a new URL and then removing it restores the dictionary and the file |
| `Scenarios.AddTwice` | monitordiscord.py:71-82 | each `add` fetches anew: the second `add` of a URL is refused exactly when the first left it tracked. The URL is added at most once: when it was untracked and either fetch was truthy, the key count grows by one, otherwise it stays the same |
| `Scenarios.AddThenList` | monitordiscord.py:71-101 | after `add` of a new URL, the list includes it exactly when its fetch was truthy |

## Left out

- `fetch_page_content` (monitordiscord.py:30-36): the HTTP request and HTML-to-text extraction are library calls, so the function is the `fetch` parameter. Its result per URL is fixed for one operation. Exceptions raised by `requests.get` (connection errors, invalid URLs) are not modelled.
- `compare_content` (monitordiscord.py:38-41): `difflib.unified_diff` is a library algorithm, so the function is the `compare` parameter. The model passes the new text first and the stored text second, as the source does. Whether the diff of equal texts is empty is therefore not stated; the poll loop never diffs equal texts anyway.
- File I/O and JSON: the state file is the ghost field `saved`. Write failures, a corrupt file, and a file whose JSON is not an object are not modelled. The loaded dictionary must be well formed, which JSON objects written by `json.dump` always are.
- Discord plumbing: bot setup, intents, `ctx.send`, `channel.send`, `bot.run`, the token, the `on_ready` readiness message and the 60-second `tasks.loop` timer (monitordiscord.py:9-20, 103-119) are platform I/O and scheduling.
- `Monitor.Tracker.MonitorCycle`: channel lookup is one boolean per cycle, while the source calls `get_channel` once for each changed URL. The source passes `CHANNEL_ID` as a string, and whether the library ever finds a channel under a string identifier is library behaviour this model does not see. The `channelFound` parameter covers both answers. A failing `channel.send` is not modelled.
- Concurrency: every command and every poll cycle is one atomic step. In the source, `await channel.send` inside the poll loop lets a command run mid-cycle. An `add` or `remove` at that point would change the dict's size during iteration, which Python rejects. The one exception is a `remove` of the URL whose notification is being sent: line 64 then puts that URL back at the end of the key order and line 65 saves it, so the size is restored before the iterator checks it and the removal is silently undone. The model does not capture that interleaving.
- Logging `print`s (monitordiscord.py:62, 67, 106-111) carry no behaviour. Line 67 prints "No changes detected" for every URL whatever the outcome.
- The model keeps three traits of the code as written:
  - Persistence write failures are not surfaced; the code assumes every write succeeds.
  - Commands and the poll loop share the dictionary without a lock.
  - A text stored as empty can only come from the state file, since `add` and the poll loop never store an empty text.
