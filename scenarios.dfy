/**
 What a caller of the commands can conclude from their contracts alone:
 sequences of commands as a user would issue them.
 */
module Scenarios {
  import opened Messages
  import opened Tracking
  import opened Monitor

  /** Adding a new URL and removing it again leaves the dict and the file as they were. */
  method AddThenRemove(t: Tracker, url: Url, fetch: Fetcher) returns (added: string, removed: string)
    requires t.Valid() && url !in t.content
    modifies t
    ensures t.Valid()
    ensures Truthy(fetch(url)) ==> added == AddedReply(url) && removed == RemovedReply(url)
    ensures !Truthy(fetch(url)) ==> added == FetchFailedReply && removed == NotMonitoredReply
    ensures t.Current() == old(t.Current())
  {
    added := t.Add(url, fetch);
    removed := t.Remove(url);
    if Truthy(fetch(url)) {
      assert url !in old(t.urls);
      WithoutAppended(old(t.urls), url);
      assert t.content == old(t.content);
    }
  }

  /**
   Two `add` commands for the same URL, each fetching the page anew (`fetch`
   for the first, `refetch` for the second): the second is refused exactly
   when the first left the URL tracked, and the URL is added at most once.
   */
  method AddTwice(t: Tracker, url: Url, fetch: Fetcher, refetch: Fetcher) returns (first: string, second: string)
    requires t.Valid()
    modifies t
    ensures t.Valid()
    ensures second == AlreadyMonitoredReply <==> (url in old(t.content) || Truthy(fetch(url)))
    ensures |t.urls| == |old(t.urls)| +
              (if url !in old(t.content) && (Truthy(fetch(url)) || Truthy(refetch(url))) then 1 else 0)
    ensures |t.urls| <= |old(t.urls)| + 1
  {
    first := t.Add(url, fetch);
    second := t.Add(url, refetch);
    assert AlreadyMonitoredReply != FetchFailedReply;
    assert AddedReply(url)[0] == '\U{2705}' && AlreadyMonitoredReply[0] == 'T';
  }

  /** After a successful `add` the list reply names the URL; a failed one leaves it out. */
  method AddThenList(t: Tracker, url: Url, fetch: Fetcher) returns (listing: string)
    requires t.Valid() && url !in t.content
    modifies t
    ensures t.Valid()
    ensures url in t.urls <==> Truthy(fetch(url))
    ensures listing == ListMessage(t.urls)
  {
    var _ := t.Add(url, fetch);
    listing := t.ListAssets();
  }
}
