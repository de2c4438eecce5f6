/**
 The bot's state and its commands. `tracked_urls` is a Python dict that the
 commands and the poll loop change in place; here it is the Tracker's two
 fields, the key order and the stored contents. `save_tracked_data` writes the
 whole dict to the state file; the ghost field `saved` is that file's contents.
 */
module Monitor {
  import opened Wrappers
  import opened Messages
  import opened Tracking

  class Tracker {
    /** The keys of `tracked_urls`, in insertion order. */
    var urls: seq<Url>
    /** The last content fetched for each tracked URL. */
    var content: map<Url, string>
    /** What the state file holds. */
    ghost var saved: Snapshot

    function Current(): Snapshot
      reads this
    {
      Snapshot(urls, content)
    }

    /** The dict is well formed and the state file matches it. */
    ghost predicate Valid()
      reads this
    {
      WellFormed(Current()) && saved == Current()
    }

    /**
     Startup: the dict read back from the state file, or the empty dict when
     there is no state file (`file` is None).
     */
    constructor (file: Option<Snapshot>)
      requires file.Some? ==> WellFormed(file.value)
      ensures Valid()
      ensures Current() == if file.Some? then file.value else Empty
    {
      if file.Some? {
        urls, content := file.value.urls, file.value.content;
      } else {
        urls, content := [], map[];
      }
      saved := Snapshot(urls, content);
    }

    /** `save_tracked_data`: write the whole dict to the state file. */
    method Save()
      modifies this`saved
      ensures saved == Current()
    {
      saved := Current();
    }

    /** The `add` command. */
    method Add(url: Url, fetch: Fetcher) returns (reply: string)
      requires Valid()
      modifies this
      ensures Valid()
      ensures url in old(content) ==>
                reply == AlreadyMonitoredReply && Current() == old(Current())
      ensures url !in old(content) && !Truthy(fetch(url)) ==>
                reply == FetchFailedReply && Current() == old(Current())
      ensures url !in old(content) && Truthy(fetch(url)) ==>
                && reply == AddedReply(url)
                && content == old(content)[url := fetch(url).value]
                && urls == old(urls) + [url]
    {
      if url in content {
        reply := AlreadyMonitoredReply;
      } else {
        var fetched := fetch(url);
        if Truthy(fetched) {
          content := content[url := fetched.value];
          urls := urls + [url];
          Save();
          reply := AddedReply(url);
        } else {
          reply := FetchFailedReply;
        }
      }
    }

    /** The `remove` command. */
    method Remove(url: Url) returns (reply: string)
      requires Valid()
      modifies this
      ensures Valid()
      ensures url in old(content) ==>
                && reply == RemovedReply(url)
                && content == old(content) - {url}
                && urls == Without(old(urls), url)
                && forall i :: 0 <= i < |old(urls)| && old(urls)[i] == url ==>
                     urls == old(urls)[..i] + old(urls)[i + 1..]
      ensures url !in old(content) ==>
                reply == NotMonitoredReply && Current() == old(Current())
    {
      if url in content {
        content := content - {url};
        forall i | 0 <= i < |urls| && urls[i] == url
          ensures Without(urls, url) == urls[..i] + urls[i + 1..]
        {
          WithoutAt(urls, url, i);
        }
        urls := Without(urls, url);
        Save();
        reply := RemovedReply(url);
      } else {
        reply := NotMonitoredReply;
      }
    }

    /** The `list_assets` command. */
    method ListAssets() returns (reply: string)
      requires Valid()
      ensures reply == ListMessage(urls)
      ensures reply == NoneMonitoredReply <==> content == map[]
    {
      reply := ListMessage(urls);
      assert urls != [] ==> urls[0] in content;
    }

    /**
     The poll loop's body for one tracked URL: fetch it, and when the text is
     new and non-empty, diff it against the stored text, notify when the
     channel was found, store the new text and rewrite the file.
     */
    method PollUrl(url: Url, fetch: Fetcher, compare: Differ, channelFound: bool) returns (notice: seq<string>)
      requires url in content && saved == Current()
      modifies this
      ensures urls == old(urls) && saved == Current()
      ensures Changed(old(content)[url], fetch(url)) ==>
                && content == old(content)[url := fetch(url).value]
                && notice == if channelFound
                             then [Notification(url, compare(fetch(url).value, old(content)[url]))]
                             else []
      ensures !Changed(old(content)[url], fetch(url)) ==> content == old(content) && notice == []
    {
      notice := [];
      var oldContent := content[url];
      var newContent := fetch(url);
      if Changed(oldContent, newContent) {
        var diffText := compare(newContent.value, oldContent);
        if channelFound {
          notice := [Notification(url, diffText)];
        }
        content := content[url := newContent.value];
        Save();
      }
    }

    /**
     One run of `monitor_docs`: poll every tracked URL once, in dict order.
     Reassigning an existing key leaves the key order alone, so the loop
     visits exactly the keys present when the cycle starts.
     */
    method MonitorCycle(fetch: Fetcher, compare: Differ, channelFound: bool) returns (sent: seq<string>)
      requires Valid()
      modifies this
      ensures Valid()
      ensures urls == old(urls)
      ensures content == Refreshed(old(content), fetch)
      ensures sent == if channelFound then Notices(old(urls), old(content), fetch, compare) else []
    {
      sent := [];
      var keys := urls;
      ghost var stored := content;
      var i := 0;
      while i < |keys|
        invariant 0 <= i <= |keys|
        invariant urls == keys && saved == Current()
        invariant content == PartlyRefreshed(stored, keys[..i], fetch)
        invariant channelFound ==> sent == Notices(keys[..i], stored, fetch, compare)
        invariant !channelFound ==> sent == []
      {
        ghost var before := content;
        var notice := PollUrl(keys[i], fetch, compare, channelFound);
        CycleStep(stored, keys, i, fetch, compare, channelFound, before, content, sent, notice);
        sent := sent + notice;
        i := i + 1;
      }
      assert keys[..i] == keys;
      RefreshAll(stored, keys, fetch);
    }
  }
}
