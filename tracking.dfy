/**
 The value of the `tracked_urls` dictionary and the rules of one poll cycle,
 as functions on values. A Python dict remembers insertion order, so the
 dictionary is its keys in order together with the map from key to content.
 */
module Tracking {
  import opened Wrappers
  import opened Messages

  /** What `fetch_page_content` returns for a URL: the page text, or None. */
  type Fetcher = Url -> Option<string>

  /** `compare_content(new_content, old_content)`: the diff text, new first. */
  type Differ = (string, string) -> string

  /** The dictionary's contents: keys in insertion order and their stored text. */
  datatype Snapshot = Snapshot(urls: seq<Url>, content: map<Url, string>)

  predicate NoDuplicates(s: seq<Url>) {
    forall i, j :: 0 <= i < j < |s| ==> s[i] != s[j]
  }

  /** A dictionary has each key once, and its key order lists exactly its keys. */
  ghost predicate WellFormed(d: Snapshot) {
    && NoDuplicates(d.urls)
    && forall u :: u in d.content <==> u in d.urls
  }

  /** The startup state when no state file exists. */
  const Empty := Snapshot([], map[])

  /** Python truthiness of a fetch result: None and "" are both false. */
  predicate Truthy(fetched: Option<string>) {
    fetched.Some? && fetched.value != ""
  }

  /** The guard of the poll loop: fresh content that differs from the stored one. */
  predicate Changed(stored: string, fetched: Option<string>) {
    Truthy(fetched) && fetched.value != stored
  }

  /** The key order after `del d[x]`: x taken out, the rest in order. */
  function Without(s: seq<Url>, x: Url): (r: seq<Url>)
    ensures forall y :: y in r <==> y in s && y != x
    ensures NoDuplicates(s) ==> NoDuplicates(r)
    ensures NoDuplicates(s) && x in s ==> |r| == |s| - 1
    ensures x !in s ==> r == s
  {
    if s == [] then []
    else if s[0] == x then Without(s[1..], x)
    else
      var rest := Without(s[1..], x);
      assert NoDuplicates(s) ==> s[0] !in s[1..] && NoDuplicates(s[1..]);
      assert NoDuplicates(s) ==> forall j :: 0 <= j < |rest| ==> rest[j] != s[0];
      [s[0]] + rest
  }

  /** Deleting a key held once at position i keeps the keys before and after it, in order. */
  lemma {:induction false} WithoutAt(s: seq<Url>, x: Url, i: nat)
    requires NoDuplicates(s) && i < |s| && s[i] == x
    ensures Without(s, x) == s[..i] + s[i + 1..]
  {
    if i == 0 {
      assert x !in s[1..];
    } else {
      assert NoDuplicates(s[1..]) && s[1..][i - 1] == x;
      WithoutAt(s[1..], x, i - 1);
      assert s[1..][..i - 1] == s[1..i] && s[1..][i..] == s[i + 1..];
      assert [s[0]] + s[1..i] == s[..i];
    }
  }

  /** Deleting a key that was just appended gives back the old key order. */
  lemma {:induction false} WithoutAppended(s: seq<Url>, x: Url)
    requires x !in s
    ensures Without(s + [x], x) == s
  {
    if s == [] {
      assert [] + [x] == [x];
    } else {
      assert (s + [x])[1..] == s[1..] + [x];
      WithoutAppended(s[1..], x);
      assert [s[0]] + s[1..] == s;
    }
  }

  /** The content stored for one URL after it has been polled. */
  function NewValue(stored: string, fetched: Option<string>): (r: string)
    ensures r != stored <==> Changed(stored, fetched)
    ensures r != stored ==> fetched == Some(r)
    ensures r == "" ==> stored == ""
  {
    if Changed(stored, fetched) then fetched.value else stored
  }

  /** The dictionary contents after a full poll cycle. */
  function Refreshed(c: map<Url, string>, fetch: Fetcher): (r: map<Url, string>)
    ensures r.Keys == c.Keys
    ensures forall u :: u in c ==> (r[u] != c[u] <==> Changed(c[u], fetch(u)))
    ensures forall u :: u in c && r[u] != c[u] ==> fetch(u) == Some(r[u])
  {
    map u | u in c :: NewValue(c[u], fetch(u))
  }

  /** The contents part-way through a cycle: the URLs in `done` polled, the rest as stored. */
  function PartlyRefreshed(c: map<Url, string>, done: seq<Url>, fetch: Fetcher): map<Url, string> {
    map u | u in c :: if u in done then NewValue(c[u], fetch(u)) else c[u]
  }

  /**
   Polling the next URL changes only its own entry, which still holds its
   stored text because no URL is polled twice.
   */
  lemma RefreshStep(c: map<Url, string>, us: seq<Url>, i: nat, fetch: Fetcher)
    requires i < |us| && NoDuplicates(us)
    requires forall u :: u in us ==> u in c
    ensures PartlyRefreshed(c, us[..i], fetch)[us[i]] == c[us[i]]
    ensures PartlyRefreshed(c, us[..i + 1], fetch) ==
            if Changed(c[us[i]], fetch(us[i]))
            then PartlyRefreshed(c, us[..i], fetch)[us[i] := fetch(us[i]).value]
            else PartlyRefreshed(c, us[..i], fetch)
  {
  }

  /** Once every key has been polled, the contents are those of a whole cycle. */
  lemma RefreshAll(c: map<Url, string>, us: seq<Url>, fetch: Fetcher)
    requires forall u :: u in c ==> u in us
    ensures PartlyRefreshed(c, us, fetch) == Refreshed(c, fetch)
  {
  }

  /** `r` keeps some of the elements of `s`, in the order they have in `s`. */
  predicate IsSubsequence(r: seq<Url>, s: seq<Url>)
    decreases |s|
  {
    if r == [] then true
    else if s == [] then false
    else
      || (r[|r| - 1] == s[|s| - 1] && IsSubsequence(r[..|r| - 1], s[..|s| - 1]))
      || IsSubsequence(r, s[..|s| - 1])
  }

  /** The URLs, in polling order, whose content a poll cycle replaces. */
  function ChangedUrls(us: seq<Url>, c: map<Url, string>, fetch: Fetcher): (r: seq<Url>)
    requires forall u :: u in us ==> u in c
    ensures forall u :: u in r <==> u in us && Changed(c[u], fetch(u))
    ensures |r| <= |us|
    ensures IsSubsequence(r, us)
    ensures NoDuplicates(us) ==> NoDuplicates(r)
  {
    if us == [] then []
    else
      var last := us[|us| - 1];
      var init := ChangedUrls(us[..|us| - 1], c, fetch);
      assert forall u :: u in us <==> u in us[..|us| - 1] || u == last;
      assert NoDuplicates(us) ==> NoDuplicates(us[..|us| - 1]) && last !in us[..|us| - 1];
      assert init != [] ==> init[..|init| - 1] + [init[|init| - 1]] == init;
      if Changed(c[last], fetch(last)) then init + [last] else init
  }

  /**
   The notifications of a poll cycle over the URLs `us`, in polling order:
   one per changed URL, with its diff computed from the new and the stored text.
   */
  function Notices(us: seq<Url>, c: map<Url, string>, fetch: Fetcher, compare: Differ): seq<string>
    requires forall u :: u in us ==> u in c
  {
    if us == [] then []
    else
      var last := us[|us| - 1];
      var init := Notices(us[..|us| - 1], c, fetch, compare);
      if Changed(c[last], fetch(last))
      then init + [Notification(last, compare(fetch(last).value, c[last]))]
      else init
  }

  /** Polling one more URL adds its notification, if any, at the end. */
  lemma NoticesExtend(us: seq<Url>, i: nat, c: map<Url, string>, fetch: Fetcher, compare: Differ)
    requires i < |us|
    requires forall u :: u in us ==> u in c
    ensures forall u :: u in us[..i] ==> u in c
    ensures Notices(us[..i + 1], c, fetch, compare) ==
            Notices(us[..i], c, fetch, compare)
            + if Changed(c[us[i]], fetch(us[i]))
              then [Notification(us[i], compare(fetch(us[i]).value, c[us[i]]))]
              else []
  {
    assert us[..i + 1][..i] == us[..i];
  }

  /**
   One step of a cycle: if the contents and the notifications so far are those
   of polling `us[..i]`, then polling `us[i]` as the loop body does gives those
   of polling `us[..i + 1]`.
   */
  lemma CycleStep(c: map<Url, string>, us: seq<Url>, i: nat, fetch: Fetcher, compare: Differ,
                  channelFound: bool, before: map<Url, string>, after: map<Url, string>,
                  sent: seq<string>, notice: seq<string>)
    requires i < |us| && NoDuplicates(us)
    requires forall u :: u in us ==> u in c
    requires before == PartlyRefreshed(c, us[..i], fetch)
    requires channelFound ==> sent == Notices(us[..i], c, fetch, compare)
    requires !channelFound ==> sent == []
    requires us[i] in before
    requires Changed(before[us[i]], fetch(us[i])) ==>
               && after == before[us[i] := fetch(us[i]).value]
               && notice == if channelFound
                            then [Notification(us[i], compare(fetch(us[i]).value, before[us[i]]))]
                            else []
    requires !Changed(before[us[i]], fetch(us[i])) ==> after == before && notice == []
    ensures after == PartlyRefreshed(c, us[..i + 1], fetch)
    ensures channelFound ==> sent + notice == Notices(us[..i + 1], c, fetch, compare)
    ensures !channelFound ==> sent + notice == []
  {
    RefreshStep(c, us, i, fetch);
    NoticesExtend(us, i, c, fetch, compare);
  }

  /**
   The k-th notification of a cycle is about the k-th changed URL, and carries
   the diff of its new content against its stored content.
   */
  lemma {:induction false} NoticesMatchChanges(us: seq<Url>, c: map<Url, string>, fetch: Fetcher, compare: Differ)
    requires forall u :: u in us ==> u in c
    ensures var cs := ChangedUrls(us, c, fetch);
            var ns := Notices(us, c, fetch, compare);
            && |ns| == |cs|
            && forall k :: 0 <= k < |cs| ==>
                 && Truthy(fetch(cs[k]))
                 && ns[k] == Notification(cs[k], compare(fetch(cs[k]).value, c[cs[k]]))
  {
    if us != [] {
      var init, last := us[..|us| - 1], us[|us| - 1];
      assert forall u :: u in init ==> u in us;
      NoticesMatchChanges(init, c, fetch, compare);
      var cs, ns := ChangedUrls(init, c, fetch), Notices(init, c, fetch, compare);
      if Changed(c[last], fetch(last)) {
        assert ChangedUrls(us, c, fetch) == cs + [last];
        assert Notices(us, c, fetch, compare) == ns + [Notification(last, compare(fetch(last).value, c[last]))];
      } else {
        assert ChangedUrls(us, c, fetch) == cs;
        assert Notices(us, c, fetch, compare) == ns;
      }
    }
  }

  /** No notification is emitted by a cycle in which no page changed. */
  lemma {:induction false} NoChangesNoNotices(us: seq<Url>, c: map<Url, string>, fetch: Fetcher, compare: Differ)
    requires forall u :: u in us ==> u in c
    requires forall u :: u in us ==> !Changed(c[u], fetch(u))
    ensures Notices(us, c, fetch, compare) == []
  {
    if us != [] {
      var init := us[..|us| - 1];
      assert forall u :: u in init ==> u in us;
      NoChangesNoNotices(init, c, fetch, compare);
      assert us[|us| - 1] in us;
    }
  }

  /**
   Polling again with the same page texts changes nothing and notifies
   nothing: an unchanged page never registers as changed.
   */
  lemma {:induction false} PollTwice(us: seq<Url>, c: map<Url, string>, fetch: Fetcher, compare: Differ)
    requires forall u :: u in us ==> u in c
    ensures Refreshed(Refreshed(c, fetch), fetch) == Refreshed(c, fetch)
    ensures Notices(us, Refreshed(c, fetch), fetch, compare) == []
  {
    var r := Refreshed(c, fetch);
    forall u | u in us ensures !Changed(r[u], fetch(u)) {
      if Changed(c[u], fetch(u)) {
        assert r[u] == fetch(u).value;
      } else {
        assert r[u] == c[u];
      }
    }
    NoChangesNoNotices(us, r, fetch, compare);
  }
}
