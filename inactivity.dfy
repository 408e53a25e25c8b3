/** The inactivity checker of `run.py`: resolving a subscribed forum's
    display name to its URL, the classification pass `execute` over all
    subscribed forums, and the report lines `print` writes. */
module Inactivity {
  import opened Sorting
  import opened OrderedTable

  datatype Option<T> = None | Some(value: T)

  /** A subscribed forum, resolved once from its display name: a community
      (`r/<name>`) or a user's personal feed (`user/<name>`). */
  datatype Forum = Subreddit(name: string) | UserFeed(user: string)

  /** What fetching the newest posts of one forum gives: their creation
      timestamps, or the error the fetch raised (kept as its message). */
  datatype Fetch = Posts(created: seq<int>) | FetchError(message: string)

  /** One recorded result: `{"url": ..., "date": ..., "error": ...}`. */
  datatype Entry = Entry(url: string, date: Option<string>, error: Option<string>)

  type Results = Table<string, Entry>

  const UserPrefix: string := "u_"
  const Host: string := "https://www.reddit.com/"

  /** The `URL` template, `https://www.reddit.com/$sub/`. */
  const Placeholder: string := "$sub"
  const UrlTemplate: string := Host + Placeholder + "/"

  // ---------------------------------------------------------------------
  // Display name -> forum kind -> URL (`_get_posts` and the `URL` template)
  // ---------------------------------------------------------------------

  /** Python's `s[0:n]`: at most the first `n` characters. */
  function Head(s: string, n: nat): (r: string)
    ensures |r| == if |s| < n then |s| else n
    ensures r == s[..|r|]
  {
    if |s| < n then s else s[..n]
  }

  /** `sep` occurs in `s` starting at position `i`. */
  predicate OccursAt(s: string, sep: string, i: nat) {
    i + |sep| <= |s| && s[i..i + |sep|] == sep
  }

  /** Position of the first occurrence of `sep` in `s` at or after `from`. */
  function Find(s: string, sep: string, from: nat): (r: Option<nat>)
    requires from <= |s|
    ensures r.Some? ==> from <= r.value && OccursAt(s, sep, r.value)
    ensures forall i: nat :: from <= i && (r.None? || i < r.value) ==> !OccursAt(s, sep, i)
    decreases |s| - from
  {
    if from + |sep| > |s| then None
    else if s[from..from + |sep|] == sep then Some(from)
    else Find(s, sep, from + 1)
  }

  /** Python's `s.split(sep, 1)[-1]`: what follows the first occurrence of
      `sep`, or all of `s` when there is none. */
  function SplitOnceLast(s: string, sep: string): (r: string)
    ensures |r| <= |s| && r == s[|s| - |r|..]
    ensures OccursAt(s, sep, 0) ==> r == s[|sep|..]
    ensures (forall i: nat :: !OccursAt(s, sep, i)) ==> r == s
  {
    match Find(s, sep, 0)
    case None => s
    case Some(i) => s[i + |sep|..]
  }

  /** The branch of `_get_posts`: a display name whose first two characters
      are `u_` is a personal feed, named by what follows the prefix. */
  function Resolve(displayName: string): (f: Forum)
    ensures f.UserFeed? <==> |displayName| >= 2 && displayName[..2] == UserPrefix
    ensures f.UserFeed? ==> f.user == displayName[2..]
    ensures f.Subreddit? ==> f.name == displayName
  {
    if Head(displayName, 2) == UserPrefix then
      assert OccursAt(displayName, UserPrefix, 0);
      UserFeed(SplitOnceLast(displayName, UserPrefix))
    else
      Subreddit(displayName)
  }

  /** The template holds its placeholder exactly once, right after the
      host, so replacing that one occurrence is what `substitute` does. */
  lemma PlaceholderOnce()
    ensures forall i: nat :: OccursAt(UrlTemplate, Placeholder, i) <==> i == |Host|
  {
    assert UrlTemplate == Host + Placeholder + "/";
    assert OccursAt(UrlTemplate, Placeholder, |Host|);
    forall i: nat | OccursAt(UrlTemplate, Placeholder, i) ensures i == |Host| {
      assert UrlTemplate[i] == UrlTemplate[i..i + |Placeholder|][0] == '$';
    }
  }

  /** `URL.substitute(sub=...)`: the template with its placeholder, which
      starts right after the host, replaced by `sub`. */
  function Substitute(sub: string): (url: string)
    ensures url == Host + sub + "/"
  {
    var at := |Host|;
    UrlTemplate[..at] + sub + UrlTemplate[at + |Placeholder|..]
  }

  /** The beginnings of the two URL shapes. */
  const UserBase: string := Host + "user/"
  const SubBase: string := Host + "r/"

  /** Reads the forum back out of a URL of either shape. */
  function ForumOf(url: string): Option<Forum> {
    if |url| > |UserBase| && url[..|UserBase|] == UserBase && url[|url| - 1] == '/' then
      Some(UserFeed(url[|UserBase|..|url| - 1]))
    else if |url| > |SubBase| && url[..|SubBase|] == SubBase && url[|url| - 1] == '/' then
      Some(Subreddit(url[|SubBase|..|url| - 1]))
    else
      None
  }

  /** The parts of `base + middle + "/"`. */
  lemma Unwrap(base: string, middle: string)
    ensures var w := base + middle + "/";
      && |w| > |base| && w[..|base|] == base && w[|w| - 1] == '/' && w[|base|..|w| - 1] == middle
  {
  }

  lemma ParseUserUrl(name: string)
    ensures ForumOf(UserBase + name + "/") == Some(UserFeed(name))
  {
    Unwrap(UserBase, name);
  }

  /** A community URL never starts like a personal feed's. */
  lemma ParseSubUrl(name: string)
    ensures ForumOf(SubBase + name + "/") == Some(Subreddit(name))
  {
    var url := SubBase + name + "/";
    Unwrap(SubBase, name);
    assert |url| > |UserBase| ==> url[..|UserBase|] != UserBase by {
      assert url[|Host|] == SubBase[|Host|] == 'r';
      assert UserBase[|Host|] == 'u';
    }
  }

  /** The URL of a resolved forum; the forum can be read back from it. */
  function Url(f: Forum): (url: string)
    ensures f.UserFeed? ==> url == UserBase + f.user + "/"
    ensures f.Subreddit? ==> url == SubBase + f.name + "/"
    ensures ForumOf(url) == Some(f)
  {
    match f
    case UserFeed(name) =>
      assert Host + ("user/" + name) == UserBase + name;
      ParseUserUrl(name);
      Substitute("user/" + name)
    case Subreddit(name) =>
      assert Host + ("r/" + name) == SubBase + name;
      ParseSubUrl(name);
      Substitute("r/" + name)
  }

  /** The URL `_get_posts` pairs with a display name. */
  function ForumUrl(displayName: string): (url: string)
    ensures |displayName| >= 2 && displayName[..2] == UserPrefix ==>
      url == UserBase + displayName[2..] + "/"
    ensures !(|displayName| >= 2 && displayName[..2] == UserPrefix) ==>
      url == SubBase + displayName + "/"
  {
    Url(Resolve(displayName))
  }

  /** Reads the display name back out of a forum URL. */
  function DisplayNameOf(url: string): Option<string> {
    match ForumOf(url)
    case None => None
    case Some(UserFeed(name)) => Some(UserPrefix + name)
    case Some(Subreddit(name)) => Some(name)
  }

  /** A forum URL determines the display name it was built from. */
  lemma UrlRoundTrip(displayName: string)
    ensures DisplayNameOf(ForumUrl(displayName)) == Some(displayName)
  {
    if Resolve(displayName).UserFeed? {
      assert displayName == displayName[..2] + displayName[2..];
    }
  }

  /** Different forums never share a URL. */
  lemma {:induction false} UrlInjective(a: string, b: string)
    requires ForumUrl(a) == ForumUrl(b)
    ensures a == b
  {
    UrlRoundTrip(a);
    UrlRoundTrip(b);
  }

  // ---------------------------------------------------------------------
  // Classification of one forum (the body of the loop in `execute`)
  // ---------------------------------------------------------------------

  predicate AllOlder(ts: seq<int>, cutoff: int) {
    forall t :: t in ts ==> t < cutoff
  }

  /** The result the pass records for one forum, or `None` when the forum
      is active.  `fetch` gives the newest posts of a resolved forum and
      `fmt` renders a timestamp as a date. */
  function Classify(displayName: string, fetch: Forum -> Fetch, cutoff: int, fmt: int -> string): (r: Option<Entry>)
    ensures r.Some? ==> r.value.url == ForumUrl(displayName)
    ensures fetch(Resolve(displayName)).FetchError? ==>
      r == Some(Entry(ForumUrl(displayName), None, Some(fetch(Resolve(displayName)).message)))
    ensures r.Some? && r.value.error.Some? ==> fetch(Resolve(displayName)).FetchError?
  {
    var forum := Resolve(displayName);
    match fetch(forum)
    case FetchError(e) => Some(Entry(Url(forum), None, Some(e)))
    case Posts(ts) =>
      if AllOlder(ts, cutoff) then
        Some(Entry(Url(forum), if ts == [] then None else Some(fmt(Max(ts))), None))
      else
        None
  }

  /** After a successful fetch a forum is recorded exactly when it has no
      posts or its newest post is strictly older than the cutoff; the entry
      has no error, and its date is absent exactly when there were no
      posts and otherwise is the last timestamp after sorting. */
  lemma {:induction false} ClassifyPosts(displayName: string, fetch: Forum -> Fetch, cutoff: int, fmt: int -> string, ts: seq<int>)
    requires fetch(Resolve(displayName)) == Posts(ts)
    ensures Classify(displayName, fetch, cutoff, fmt).Some? <==> ts == [] || Sorted(ts)[|ts| - 1] < cutoff
    ensures Classify(displayName, fetch, cutoff, fmt).Some? ==>
      var e := Classify(displayName, fetch, cutoff, fmt).value;
      && e.url == ForumUrl(displayName)
      && e.error == None
      && (e.date == None <==> ts == [])
      && (ts != [] ==> e.date == Some(fmt(Sorted(ts)[|ts| - 1])))
  {
    AllOlderIffMaxOlder(ts, cutoff);
    if ts != [] {
      LastOfSortedIsMax(ts);
    }
  }

  // ---------------------------------------------------------------------
  // The whole pass
  // ---------------------------------------------------------------------

  /** The loop body of `execute` for the forum `displayName`. */
  function Step(t: Results, displayName: string, fetch: Forum -> Fetch, cutoff: int, fmt: int -> string): (r: Results)
    requires t.Valid()
    ensures r.Valid()
    ensures |t.keys| <= |r.keys| <= |t.keys| + 1 && r.keys[..|t.keys|] == t.keys
    ensures |r.keys| > |t.keys| ==> r.keys[|t.keys|] == displayName
  {
    match Classify(displayName, fetch, cutoff, fmt)
    case None => t
    case Some(e) => t.Put(displayName, e)
  }

  /** The results table after classifying `subs` in order, starting from
      `t`: the state `execute` leaves behind. */
  function Classified(t: Results, subs: seq<string>, fetch: Forum -> Fetch, cutoff: int, fmt: int -> string): (r: Results)
    requires t.Valid()
    ensures r.Valid()
    ensures |t.keys| <= |r.keys| <= |t.keys| + |subs|
    decreases |subs|
  {
    if subs == [] then t
    else Classified(Step(t, subs[0], fetch, cutoff, fmt), subs[1..], fetch, cutoff, fmt)
  }

  /** The forum `displayName` is among `subs` and is recorded when visited. */
  predicate IsRecorded(displayName: string, subs: seq<string>, fetch: Forum -> Fetch, cutoff: int, fmt: int -> string) {
    displayName in subs && Classify(displayName, fetch, cutoff, fmt).Some?
  }

  /** The pass only inserts: a key is present afterwards exactly when it
      was before or it names a processed forum that was recorded. */
  lemma {:induction false} ClassifiedKeys(t: Results, subs: seq<string>, fetch: Forum -> Fetch, cutoff: int, fmt: int -> string)
    requires t.Valid()
    ensures forall n :: n in Classified(t, subs, fetch, cutoff, fmt).entries <==>
      n in t.entries || IsRecorded(n, subs, fetch, cutoff, fmt)
    decreases |subs|
  {
    if subs != [] {
      var t' := Step(t, subs[0], fetch, cutoff, fmt);
      ClassifiedKeys(t', subs[1..], fetch, cutoff, fmt);
      assert forall n :: n in subs <==> n == subs[0] || n in subs[1..] by {
        assert subs == [subs[0]] + subs[1..];
      }
    }
  }

  /** Entries of keys the pass does not record, among them every forum
      classified active, keep their value. */
  lemma {:induction false} ClassifiedUntouched(t: Results, subs: seq<string>, fetch: Forum -> Fetch, cutoff: int, fmt: int -> string)
    requires t.Valid()
    ensures forall n :: n in t.entries && !IsRecorded(n, subs, fetch, cutoff, fmt) ==>
      n in Classified(t, subs, fetch, cutoff, fmt).entries &&
      Classified(t, subs, fetch, cutoff, fmt).entries[n] == t.entries[n]
    decreases |subs|
  {
    if subs != [] {
      var t' := Step(t, subs[0], fetch, cutoff, fmt);
      ClassifiedUntouched(t', subs[1..], fetch, cutoff, fmt);
      assert forall n :: n in subs <==> n == subs[0] || n in subs[1..] by {
        assert subs == [subs[0]] + subs[1..];
      }
    }
  }

  /** Every recorded forum ends up with its own classification, whatever
      the fetches of the other forums gave: an error in one forum does not
      stop the later ones from being classified. */
  lemma {:induction false} ClassifiedEntries(t: Results, subs: seq<string>, fetch: Forum -> Fetch, cutoff: int, fmt: int -> string)
    requires t.Valid()
    ensures forall n :: IsRecorded(n, subs, fetch, cutoff, fmt) ==>
      n in Classified(t, subs, fetch, cutoff, fmt).entries &&
      Classified(t, subs, fetch, cutoff, fmt).entries[n] == Classify(n, fetch, cutoff, fmt).value
    decreases |subs|
  {
    if subs != [] {
      var t' := Step(t, subs[0], fetch, cutoff, fmt);
      ClassifiedEntries(t', subs[1..], fetch, cutoff, fmt);
      ClassifiedUntouched(t', subs[1..], fetch, cutoff, fmt);
      assert forall n :: n in subs <==> n == subs[0] || n in subs[1..] by {
        assert subs == [subs[0]] + subs[1..];
      }
    }
  }

  /** Earlier keys keep their position, and every key the pass adds is the
      display name of a processed forum. */
  lemma {:induction false} ClassifiedOrder(t: Results, subs: seq<string>, fetch: Forum -> Fetch, cutoff: int, fmt: int -> string)
    requires t.Valid()
    ensures |t.keys| <= |Classified(t, subs, fetch, cutoff, fmt).keys|
    ensures Classified(t, subs, fetch, cutoff, fmt).keys[..|t.keys|] == t.keys
    ensures forall i :: |t.keys| <= i < |Classified(t, subs, fetch, cutoff, fmt).keys| ==>
      Classified(t, subs, fetch, cutoff, fmt).keys[i] in subs
    decreases |subs|
  {
    if subs != [] {
      var t' := Step(t, subs[0], fetch, cutoff, fmt);
      ClassifiedOrder(t', subs[1..], fetch, cutoff, fmt);
      var r := Classified(t, subs, fetch, cutoff, fmt);
      assert r == Classified(t', subs[1..], fetch, cutoff, fmt);
      assert r.keys[..|t.keys|] == t.keys by {
        assert r.keys[..|t.keys|] == r.keys[..|t'.keys|][..|t.keys|];
      }
      forall i | |t.keys| <= i < |r.keys| ensures r.keys[i] in subs {
        if i < |t'.keys| {
          assert r.keys[i] == r.keys[..|t'.keys|][i] == t'.keys[i] == subs[0];
        } else {
          assert r.keys[i] in subs[1..];
        }
      }
    }
  }

  /** A forum whose fetch failed ends up with an error entry carrying its
      own URL and no date, under its display name. */
  lemma {:induction false} FetchErrorRecorded(t: Results, subs: seq<string>, fetch: Forum -> Fetch, cutoff: int, fmt: int -> string, i: nat, e: string)
    requires t.Valid() && i < |subs|
    requires fetch(Resolve(subs[i])) == FetchError(e)
    ensures subs[i] in Classified(t, subs, fetch, cutoff, fmt).entries
    ensures Classified(t, subs, fetch, cutoff, fmt).entries[subs[i]] == Entry(ForumUrl(subs[i]), None, Some(e))
  {
    ClassifiedEntries(t, subs, fetch, cutoff, fmt);
  }

  /** The entry recorded for one forum, as a sequence of at most one. */
  function RecordedFor(displayName: string, fetch: Forum -> Fetch, cutoff: int, fmt: int -> string): seq<Entry> {
    match Classify(displayName, fetch, cutoff, fmt)
    case None => []
    case Some(e) => [e]
  }

  /** The entries `execute` records for `subs`, in the order it meets them. */
  function Recorded(subs: seq<string>, fetch: Forum -> Fetch, cutoff: int, fmt: int -> string): seq<Entry> {
    if subs == [] then []
    else RecordedFor(subs[0], fetch, cutoff, fmt) + Recorded(subs[1..], fetch, cutoff, fmt)
  }

  /** One step on a forum new to the table appends what it records. */
  lemma StepValues(t: Results, displayName: string, fetch: Forum -> Fetch, cutoff: int, fmt: int -> string)
    requires t.Valid() && displayName !in t.entries
    ensures Step(t, displayName, fetch, cutoff, fmt).Values() == t.Values() + RecordedFor(displayName, fetch, cutoff, fmt)
  {
    match Classify(displayName, fetch, cutoff, fmt) {
      case None =>
      case Some(e) => PutNewAppends(t, displayName, e);
    }
  }

  predicate Distinct(subs: seq<string>) {
    forall i, j :: 0 <= i < j < |subs| ==> subs[i] != subs[j]
  }

  /** With distinct subscriptions that are new to the table, the values of
      the table afterwards are the old ones followed by the recorded
      entries in subscription order. */
  lemma {:induction false} ClassifiedValues(t: Results, subs: seq<string>, fetch: Forum -> Fetch, cutoff: int, fmt: int -> string)
    requires t.Valid() && Distinct(subs)
    requires forall n :: n in subs ==> n !in t.entries
    ensures Classified(t, subs, fetch, cutoff, fmt).Values() == t.Values() + Recorded(subs, fetch, cutoff, fmt)
    decreases |subs|
  {
    if subs != [] {
      var t' := Step(t, subs[0], fetch, cutoff, fmt);
      var own := RecordedFor(subs[0], fetch, cutoff, fmt);
      var rest := Recorded(subs[1..], fetch, cutoff, fmt);
      StepValues(t, subs[0], fetch, cutoff, fmt);
      assert t'.entries.Keys <= t.entries.Keys + {subs[0]};
      forall n | n in subs[1..] ensures n !in t'.entries {
        var j :| 0 <= j < |subs[1..]| && subs[1..][j] == n;
        assert subs[j + 1] == n;
      }
      ClassifiedValues(t', subs[1..], fetch, cutoff, fmt);
      assert Recorded(subs, fetch, cutoff, fmt) == own + rest;
      AppendAssociative(t.Values(), own, rest);
    }
  }

  /** Stated on its own so that the step in `ClassifiedValues` stays cheap. */
  lemma AppendAssociative<T>(a: seq<T>, b: seq<T>, c: seq<T>)
    ensures (a + b) + c == a + (b + c)
  {
  }

  // ---------------------------------------------------------------------
  // Report lines (`print`)
  // ---------------------------------------------------------------------

  /** How an f-string renders the date: `None` when it is absent. */
  function DateText(date: Option<string>): string {
    match date
    case None => "None"
    case Some(d) => d
  }

  /** The line for one result: its URL, a bar, and either the error or
      the date, an absent date rendered as `None`. */
  function Line(e: Entry): (line: string)
    ensures e.error.Some? ==> line == e.url + " | Error: " + e.error.value
    ensures e.error.None? && e.date.Some? ==> line == e.url + " | Last Post: " + e.date.value
    ensures e.error.None? && e.date.None? ==> line == e.url + " | Last Post: None"
  {
    e.url + " | " + if e.error.Some? then "Error: " + e.error.value else "Last Post: " + DateText(e.date)
  }

  /** One line per entry, in order. */
  function Lines(vs: seq<Entry>): (lines: seq<string>)
    ensures |lines| == |vs|
    ensures forall i :: 0 <= i < |vs| ==> lines[i] == Line(vs[i])
  {
    if vs == [] then [] else [Line(vs[0])] + Lines(vs[1..])
  }

  /** What `print` writes for a results table. */
  function Report(t: Results): (lines: seq<string>)
    requires t.Valid()
    ensures |lines| == |t.keys|
    ensures forall i :: 0 <= i < |t.keys| ==> lines[i] == Line(t.entries[t.keys[i]])
  {
    Lines(t.Values())
  }

  /** Running the pass on an empty table and printing shows exactly the
      inactive or errored forums, one line each, in subscription order. */
  lemma {:induction false} ReportAfterPass(subs: seq<string>, fetch: Forum -> Fetch, cutoff: int, fmt: int -> string)
    requires Distinct(subs)
    ensures Report(Classified(Empty(), subs, fetch, cutoff, fmt)) == Lines(Recorded(subs, fetch, cutoff, fmt))
  {
    ClassifiedValues(Empty(), subs, fetch, cutoff, fmt);
    assert Empty<string, Entry>().Values() == [];
  }

  // ---------------------------------------------------------------------
  // The checker object
  // ---------------------------------------------------------------------

  class SubredditInactivity {
    /** The cutoff timestamp: posts strictly older than it are stale. */
    const delta: int
    /** Display names of the subscribed forums, in the order they are visited. */
    const subs: seq<string>
    /** `self.results`, keyed by display name. */
    var results: Results

    constructor (cutoff: int, subscriptions: seq<string>)
      ensures delta == cutoff && subs == subscriptions
      ensures results == Empty()
    {
      delta := cutoff;
      subs := subscriptions;
      results := Empty();
    }

    /** The classification pass: visits every forum in order, resolving its
        URL before the fetch that may fail, and records the stale ones and
        the ones whose fetch failed. */
    method Execute(fetch: Forum -> Fetch, fmt: int -> string)
      requires results.Valid()
      modifies this
      ensures results.Valid()
      ensures results == Classified(old(results), subs, fetch, delta, fmt)
    {
      for i := 0 to |subs|
        invariant results.Valid()
        invariant Classified(results, subs[i..], fetch, delta, fmt) == Classified(old(results), subs, fetch, delta, fmt)
      {
        assert subs[i..][0] == subs[i] && subs[i..][1..] == subs[i + 1..];
        Visit(subs[i], fetch, fmt);
      }
    }

    /** One iteration of the pass: the forum's URL is resolved first, then
        its posts are fetched; a failed fetch records an error entry, and a
        successful one records an entry only when the newest post, the last
        one after sorting, is strictly older than the cutoff. */
    method Visit(name: string, fetch: Forum -> Fetch, fmt: int -> string)
      requires results.Valid()
      modifies this
      ensures results == Step(old(results), name, fetch, delta, fmt)
    {
      var forum := Resolve(name);
      var url := Url(forum);
      match fetch(forum) {
        case FetchError(e) =>
          assert Classify(name, fetch, delta, fmt) == Some(Entry(url, None, Some(e)));
          results := results.Put(name, Entry(url, None, Some(e)));
        case Posts(created) =>
          var dates := Sorted(created);
          ClassifyPosts(name, fetch, delta, fmt, created);
          if |dates| == 0 || dates[|dates| - 1] < delta {
            var entry := Entry(url, if |dates| > 0 then Some(fmt(dates[|dates| - 1])) else None, None);
            assert Classify(name, fetch, delta, fmt) == Some(entry);
            results := results.Put(name, entry);
          } else {
            assert Classify(name, fetch, delta, fmt) == None;
          }
      }
    }

    /** The lines `print` writes, one per recorded result in insertion order. */
    function PrintedLines(): (lines: seq<string>)
      reads this
      requires results.Valid()
      ensures |lines| == |results.keys|
      ensures forall i :: 0 <= i < |results.keys| ==> lines[i] == Line(results.entries[results.keys[i]])
    {
      Report(results)
    }
  }

  // ---------------------------------------------------------------------
  // A worked run
  // ---------------------------------------------------------------------

  /** Forum `foo` last posted at time 100, `bar` at 900, `alice` has no posts. */
  function SampleFetch(f: Forum): Fetch {
    match f
    case Subreddit(name) => if name == "foo" then Posts([40, 100]) else Posts([900, 20])
    case UserFeed(_) => Posts([])
  }

  const SampleSubs: seq<string> := ["foo", "bar", "u_alice"]

  /** With cutoff 500, `foo`, whose newest post is at 100, is stale. */
  lemma SampleStale(fmt: int -> string)
    ensures Classify("foo", SampleFetch, 500, fmt) == Some(Entry("https://www.reddit.com/r/foo/", Some(fmt(100)), None))
  {
    assert "foo"[..2][0] == 'f';
    assert Resolve("foo") == Subreddit("foo");
    assert Max([40, 100]) == 100;
    SampleUrls();
  }

  /** `bar`, whose newest post is at 900, is active and not recorded. */
  lemma SampleActive(fmt: int -> string)
    ensures Classify("bar", SampleFetch, 500, fmt) == None
  {
    assert "bar"[..2][0] == 'b';
    assert Resolve("bar") == Subreddit("bar");
    assert 900 in [900, 20];
  }

  /** The personal feed `u_alice` has no posts and is recorded without a date. */
  lemma SampleNoPosts(fmt: int -> string)
    ensures Classify("u_alice", SampleFetch, 500, fmt) == Some(Entry("https://www.reddit.com/user/alice/", None, None))
  {
    assert "u_alice"[..2] == UserPrefix;
    assert Resolve("u_alice") == UserFeed("alice");
    SampleUrls();
  }

  /** The URLs of the two recorded forums of the run. */
  lemma SampleUrls()
    ensures Url(Subreddit("foo")) == "https://www.reddit.com/r/foo/"
    ensures Url(UserFeed("alice")) == "https://www.reddit.com/user/alice/"
  {
    UrlOfBase(Subreddit("foo"), SubBase, "foo");
    UrlOfBase(UserFeed("alice"), UserBase, "alice");
    SampleUrlTexts();
  }

  lemma SampleUrlTexts()
    ensures SubBase + "foo" + "/" == "https://www.reddit.com/r/foo/"
    ensures UserBase + "alice" + "/" == "https://www.reddit.com/user/alice/"
  {
  }

  lemma UrlOfBase(f: Forum, base: string, name: string)
    requires f == Subreddit(name) || f == UserFeed(name)
    requires base == if f.UserFeed? then UserBase else SubBase
    ensures Url(f) == base + name + "/"
  {
  }

  lemma RecordedOfThree(a: string, b: string, c: string, fetch: Forum -> Fetch, cutoff: int, fmt: int -> string)
    ensures Recorded([a, b, c], fetch, cutoff, fmt) ==
      RecordedFor(a, fetch, cutoff, fmt) + (RecordedFor(b, fetch, cutoff, fmt) + RecordedFor(c, fetch, cutoff, fmt))
  {
    var subs := [a, b, c];
    assert subs[1..] == [b, c] && subs[1..][1..] == [c] && subs[1..][1..][1..] == [];
    assert Recorded([c], fetch, cutoff, fmt) == RecordedFor(c, fetch, cutoff, fmt) + [];
  }

  /** The run records `foo` with its date and `u_alice` without one. */
  lemma SampleRecorded(fmt: int -> string)
    ensures Recorded(SampleSubs, SampleFetch, 500, fmt) ==
      [Entry("https://www.reddit.com/r/foo/", Some(fmt(100)), None),
       Entry("https://www.reddit.com/user/alice/", None, None)]
  {
    RecordedOfThree("foo", "bar", "u_alice", SampleFetch, 500, fmt);
    SampleStale(fmt);
    SampleActive(fmt);
    SampleNoPosts(fmt);
  }

  /** The printed report of that run: a line for `foo` with its last date
      and one for the personal feed with no date, none for `bar`. */
  lemma SampleReport(fmt: int -> string)
    ensures Report(Classified(Empty(), SampleSubs, SampleFetch, 500, fmt)) ==
      ["https://www.reddit.com/r/foo/" + " | Last Post: " + fmt(100),
       "https://www.reddit.com/user/alice/" + " | Last Post: None"]
  {
    var foo := Entry("https://www.reddit.com/r/foo/", Some(fmt(100)), None);
    var alice := Entry("https://www.reddit.com/user/alice/", None, None);
    assert Distinct(SampleSubs);
    ReportAfterPass(SampleSubs, SampleFetch, 500, fmt);
    SampleRecorded(fmt);
    assert Report(Classified(Empty(), SampleSubs, SampleFetch, 500, fmt)) == Lines([foo, alice]);
    SampleLines(foo, alice);
  }

  /** The two report lines; kept apart from `SampleReport` to keep that
      proof small. */
  lemma SampleLines(foo: Entry, alice: Entry)
    requires foo.error == None && alice == Entry("https://www.reddit.com/user/alice/", None, None)
    requires foo.date.Some?
    ensures Lines([foo, alice]) == [foo.url + " | Last Post: " + foo.date.value,
      "https://www.reddit.com/user/alice/" + " | Last Post: None"]
  {
  }
}
