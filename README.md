# reddit-inactivity: a Dafny model of the inactivity checker

The script `run.py` finds the subscribed forums of a Reddit account that
have gone quiet. Its class `SubredditInactivity` works in three steps:

1. It resolves each forum's display name to a forum kind and a URL. A
   personal feed is named `u_<user>` and maps to
   `https://www.reddit.com/user/<user>/`. Any other name maps to
   `https://www.reddit.com/r/<name>/`.
2. `execute` walks the subscriptions in order and fills the `results`
   dict in place. A forum is recorded when it has no posts or when its
   newest post is strictly older than the cutoff. A forum whose fetch
   fails is recorded with the error. Active forums are not recorded.
3. `print` writes one line per recorded forum, in insertion order.

The model has three modules:

- `Sorting` (`sorting.dfy`) models the `sorted(...)` of timestamps and
  the newest timestamp, `dates[-1]`. `Max` is defined on its own, and
  lemmas tie it to the last sorted element and to the cutoff test.
- `OrderedTable` (`ordered_table.dfy`) models the `results` dict with
  Python's insertion-order semantics. Assigning to a new key appends it.
  Assigning to an existing key replaces the value and keeps its position.
- `Inactivity` (`inactivity.dfy`) holds the rest:
  - name resolution: `Resolve`, `ForumUrl`, and the inverse
    `DisplayNameOf`;
  - the per-forum classification `Classify`;
  - the whole pass as a function `Classified` and as the imperative
    method `SubredditInactivity.Execute`, which is proved equal to it;
  - the report lines `Lines` / `Report` and the class function
    `PrintedLines`;
  - a worked run with three forums.

Outside inputs are parameters:

- `fetch: Forum -> Fetch` is the praw call. For a resolved forum it gives
  either the creation timestamps of its newest posts or a fetch error.
- `fmt: int -> string` is `_ts_to_strftime`.
- The cutoff `delta` is an integer given to the constructor.

Modelling decisions that follow the code closely:

- The code prints in the dict's insertion order, so the model keeps that
  order rather than treating the table as an unordered map.
- The date of a forum with no posts is printed as `None`, because an
  f-string renders Python's `None` that way.
- The `URL` template (run.py:16) is the string `https://www.reddit.com/$sub/`, written as the host, the placeholder `$sub` and a slash. `Substitute` replaces the placeholder's one occurrence. `string.Template` replaces every occurrence, and `PlaceholderOnce` shows there is only one.
- The URL of an error entry is resolved before the fetch that can fail.
  This matches the code's usual path: praw listings are lazy, so the HTTP
  error is raised while run.py:76 iterates, after run.py:45 or run.py:48
  has set the URL.

## Model

| member | source | states |
|---|---|---|
| `Sorting.Sorted` | run.py:76 | the result is in ascending order, is a permutation of the timestamps, and has the same length |
| `Sorting.Max` | run.py:76-78 | the newest timestamp, defined without sorting, is one of the timestamps, and none is larger |
| `Sorting.LastOfSortedIsMax` | run.py:76-81 | `dates[-1]` after sorting is the maximum timestamp |
| `Sorting.AllOlderIffMaxOlder` | run.py:78 | `not dates or dates[-1] < delta` holds exactly when every timestamp is strictly older than the cutoff |
| `OrderedTable.Table.Put` | run.py:79-90 | `results[name] = entry` keeps the table well formed, sets the key's value, keeps earlier keys in place, and appends the key only when it is new |
| `OrderedTable.PutNewAppends` | run.py:79-83 | inserting a new key adds its value at the end of `values()` |
| `OrderedTable.PutExistingReplaces` | run.py:79-90 | assigning to a key already present replaces its value in `values()` at the same position, and nothing else changes |
| `Inactivity.Find` | run.py:43 | gives the first occurrence of the separator, or confirms there is none |
| `Inactivity.SplitOnceLast` | run.py:43 | `split(sep, 1)[-1]` is a suffix of the name; when the name starts with the separator it is the rest after it; when the separator does not occur it is the whole name |
| `Inactivity.Resolve` | run.py:42-48 | a name is a personal feed exactly when its first two characters are `u_`; the feed's name is everything after the prefix, and any other name is kept whole |
| `Inactivity.PlaceholderOnce` | run.py:16 | the template `https://www.reddit.com/$sub/` holds the placeholder `$sub` exactly once, right after the host |
| `Inactivity.Substitute` | run.py:16 | replacing the placeholder by `sub` gives the host, then `sub`, then `/` |
| `Inactivity.Url` | run.py:45-48 | a personal feed's URL is `https://www.reddit.com/user/` + user + `/`, a community's is `https://www.reddit.com/r/` + name + `/`, and the forum can be read back from its URL |
| `Inactivity.ForumUrl` | run.py:42-48 | a `u_` name gives `https://www.reddit.com/user/` + name[2..] + `/`; any other name gives `https://www.reddit.com/r/` + name + `/` |
| `Inactivity.UrlRoundTrip` | run.py:45-48 | the display name can be read back from the forum's URL |
| `Inactivity.UrlInjective` | run.py:45-48 | two display names with the same URL are equal, so a report line's URL identifies one forum |
| `Inactivity.Classify` | run.py:74-90 | what one iteration records: any entry carries the forum's own URL; a failed fetch always gives an entry with no date and the error; an entry with an error comes only from a failed fetch |
| `Inactivity.ClassifyPosts` | run.py:76-83 | after a successful fetch, a forum is recorded exactly when it has no posts or its last timestamp after sorting is strictly older than the cutoff; the entry carries the forum's own URL and no error; its date is absent exactly when there are no posts, and otherwise is the formatted last timestamp after sorting |
| `Inactivity.Step` | run.py:74-90 | one iteration keeps the table well formed, keeps the earlier keys in place, and adds at most one key, the forum's display name |
| `Inactivity.Classified` | run.py:71-90 | the whole pass keeps the table well formed and adds at most one key per subscription |
| `Inactivity.ClassifiedKeys` | run.py:73-90 | after the pass, a key is present exactly when it was present before or it names a processed forum that was recorded |
| `Inactivity.ClassifiedUntouched` | run.py:73-90 | the pass leaves the entries of all other keys unchanged, including those of forums classified active |
| `Inactivity.ClassifiedEntries` | run.py:73-90 | each recorded forum ends with its own classification, whatever the other forums' fetches gave, so a caught fetch error never stops later forums |
| `Inactivity.ClassifiedOrder` | run.py:73-90 | earlier keys keep their positions, and every key the pass adds is a processed forum's display name |
| `Inactivity.FetchErrorRecorded` | run.py:85-90 | a forum whose fetch failed ends with an entry under its display name that has its own URL, no date and the error |
| `Inactivity.StepValues` | run.py:78-90 | one loop iteration on a new forum appends at most that forum's entry to `values()` |
| `Inactivity.ClassifiedValues` | run.py:73-90 | for distinct, new subscriptions, the table's values after the pass are the old values followed by the recorded entries, in subscription order |
| `Inactivity.Line` | run.py:59-64 | the line for one result: the URL, a bar separator and `Error: ` with the message when an error is set; otherwise the URL, the separator and `Last Post: ` with the date, where an absent date shows as `None` |
| `Inactivity.Lines` | run.py:58-64 | one line per result, the line of that result, in the given order |
| `Inactivity.Report` | run.py:56-64 | the report of a table has one line per key, the line of that key's entry, in insertion order |
| `Inactivity.ReportAfterPass` | run.py:104-106 | running `execute` on an empty table and then `print` gives exactly the lines of the inactive or errored forums, in subscription order |
| `Inactivity.SubredditInactivity.constructor` | run.py:27-33 | sets the cutoff and the subscription list, and starts with an empty result table |
| `Inactivity.SubredditInactivity.Execute` | run.py:71-90 | the loop leaves `results` equal to `Classified` of the old table over every subscription, resolving each URL before the fetch |
| `Inactivity.SubredditInactivity.Visit` | run.py:74-90 | one iteration resolves the URL first, then either records the error, or sorts the timestamps and records an entry only when the last one is strictly older than the cutoff; the new table is the old one after that forum's classification |
| `Inactivity.SubredditInactivity.PrintedLines` | run.py:56-64 | the lines `print` writes: one per entry of `results`, in insertion order, each the line of that entry |
| `Inactivity.SampleRecorded` | run.py:71-90 | with cutoff 500: `foo` (newest post at 100) is recorded with its date, `bar` (newest post at 900) is not, and `u_alice` (no posts) is recorded with no date |
| `Inactivity.SampleReport` | run.py:104-106 | the printed report of that run has exactly two lines: the `r/foo` URL with its last-post date, then the `user/alice` URL with `None` as the date |

## Left out

- The constructor's setup is foreign I/O or clock-dependent: the praw session, reading `pyproject.toml`, and the subscription fetch with `limit=1000` (run.py:30-38). The subscription list and the cutoff are inputs instead.
- The cutoff computation (run.py:29) needs the wall clock and `relativedelta`. The cutoff is an integer parameter.
- `_ts_to_strftime` (run.py:52-54) depends on the local timezone and a date library. It is the parameter `fmt`.
- The model uses integer timestamps; praw's `created_utc` is a float.
- The fetch is the parameter `fetch`, a total function of the resolved forum. So it gives the same outcome when a display name appears twice; a subscription list has no repeated names. The `limit=5` on posts is not modelled: any sequence of timestamps is allowed.
- The model treats every fetch failure as caught by the `except HTTPError` branch (run.py:85). In the code only an `HTTPError` is caught. A failure of any other type, such as praw's own exceptions for a private or banned forum, escapes `execute` (run.py:73-90) and ends the run before `print` (run.py:106). The model does not capture that. The entry keeps the error as its message, which is how `print` shows it. Truthiness of the exception object is modelled as "an error is present".
- `Inactivity.ClassifiedValues`, `Inactivity.ReportAfterPass`: stated only for distinct subscription names. With repeated names the dict keeps the first insertion position, and `ClassifiedOrder` and `ClassifiedEntries` still cover that case.
- The error path when the exception is raised inside `_get_posts` before the URL is assigned is not modelled. There the code would reuse the previous forum's URL, or fail with an unbound name on the first forum. The model resolves the URL first.
- `open_browser` (run.py:66-69) only has side effects in the browser. The command-line entry point (run.py:93-109) only parses arguments; its `execute` then `print` sequence is what `ReportAfterPass` states.
- The `browser` field (run.py:31) is not modelled, because it only matters to the command-line entry point. The start-up message (run.py:28) is output only.
