/**
 The texts the bot sends: command replies, the list of monitored websites
 and the change notification with its diff cut to 1900 characters.
 Strings are sequences of Unicode scalar values. A Python `str` is a
 sequence of code points, and the two agree on text without lone surrogates,
 which is what decoded pages and command arguments are; on such text the
 slice `[:1900]` counts the same units here as in the bot.
 */
module Messages {

  type Url = string

  /** Largest number of diff characters put into one notification. */
  const DiffLimit: nat := 1900

  const AlreadyMonitoredReply := "This URL is already being monitored!"
  const FetchFailedReply := "\U{274C} Failed to fetch the page content."
  const NotMonitoredReply := "This URL is not being monitored."
  const NoneMonitoredReply := "No websites are being monitored."
  const ListHeader := "**\U{1F4CC} Currently Monitored Websites:**\n"
  const Fence := "```"

  function AddedReply(url: Url): string {
    "\U{2705} Added " + url + " to the monitoring list!"
  }

  function RemovedReply(url: Url): string {
    "\U{274C} Removed " + url + " from the monitoring list!"
  }

  /** The line that opens a change notification, up to the opening fence. */
  function UpdateBanner(url: Url): string {
    "\U{1F6A8} **Documentation Updated for " + url + "!** \U{1F6A8}\n" + Fence
  }

  function Min(a: nat, b: nat): nat {
    if a <= b then a else b
  }

  predicate IsPrefix(p: string, s: string) {
    |p| <= |s| && s[..|p|] == p
  }

  /** Python's `s[:1900]`: at most DiffLimit characters, taken from the front. */
  function Truncate(s: string): (r: string)
    ensures |r| == Min(|s|, DiffLimit)
    ensures IsPrefix(r, s)
    ensures |s| <= DiffLimit ==> r == s
  {
    if |s| <= DiffLimit then s else s[..DiffLimit]
  }

  /**
   The notification for a changed page: the banner naming the URL, then the
   diff text cut to DiffLimit characters between two code fences.
   */
  function Notification(url: Url, diff: string): (m: string)
    ensures |UpdateBanner(url)| + |Fence| <= |m| <= |UpdateBanner(url)| + DiffLimit + |Fence|
    ensures m[..|UpdateBanner(url)|] == UpdateBanner(url)
    ensures m[|m| - |Fence|..] == Fence
    ensures IsPrefix(DiffPart(url, m), diff)
    ensures |DiffPart(url, m)| == Min(|diff|, DiffLimit)
  {
    var m := UpdateBanner(url) + Truncate(diff) + Fence;
    assert DiffPart(url, m) == Truncate(diff);
    m
  }

  /** The text between the banner and the closing fence of a notification. */
  function DiffPart(url: Url, m: string): string
    requires |UpdateBanner(url)| + |Fence| <= |m|
  {
    m[|UpdateBanner(url)|..|m| - |Fence|]
  }

  /** Python's `sep.join(parts)`. */
  function Join(parts: seq<string>, sep: char): (r: string)
    ensures parts == [] ==> r == ""
    ensures |parts| == 1 ==> r == parts[0]
  {
    if |parts| == 0 then ""
    else if |parts| == 1 then parts[0]
    else parts[0] + [sep] + Join(parts[1..], sep)
  }

  /** Joining one more part puts a separator and that part at the end. */
  lemma {:induction false} JoinAppend(parts: seq<string>, p: string, sep: char)
    requires parts != []
    ensures Join(parts + [p], sep) == Join(parts, sep) + [sep] + p
  {
    if |parts| > 1 {
      assert (parts + [p])[1..] == parts[1..] + [p];
      JoinAppend(parts[1..], p, sep);
    }
  }

  /** Python's `s.split(sep)`: the pieces between separators, always at least one. */
  function Split(s: string, sep: char): (r: seq<string>)
    ensures |r| >= 1
    ensures forall k :: 0 <= k < |r| ==> sep !in r[k]
  {
    if s == [] then [""]
    else if s[0] == sep then [""] + Split(s[1..], sep)
    else
      var rest := Split(s[1..], sep);
      [[s[0]] + rest[0]] + rest[1..]
  }

  /** The reply of list_assets for the tracked URLs in dictionary order. */
  function ListMessage(urls: seq<Url>): (m: string)
    ensures urls == [] <==> m == NoneMonitoredReply
    ensures urls != [] ==> |ListHeader| <= |m| && m[..|ListHeader|] == ListHeader
  {
    if urls == [] then NoneMonitoredReply
    else
      var m := ListHeader + Join(urls, '\n');
      assert m[..|ListHeader|] == ListHeader;
      assert m[2] == '\U{1F4CC}' && NoneMonitoredReply[2] != '\U{1F4CC}';
      m
  }

  /** Splitting text without a separator gives that text back as the only piece. */
  lemma {:induction false} SplitNoSep(s: string, sep: char)
    requires sep !in s
    ensures Split(s, sep) == [s]
  {
    if s != [] {
      SplitNoSep(s[1..], sep);
      assert [s[0]] + s[1..] == s;
    }
  }

  /** A piece without the separator joins the first piece of what follows it. */
  lemma {:induction false} SplitPrefix(a: string, t: string, sep: char)
    requires sep !in a
    ensures Split(a + t, sep) == [a + Split(t, sep)[0]] + Split(t, sep)[1..]
  {
    var rest := Split(t, sep);
    if a == [] {
      assert a + t == t && a + rest[0] == rest[0];
      assert [rest[0]] + rest[1..] == rest;
    } else {
      assert (a + t)[0] == a[0] && (a + t)[1..] == a[1..] + t;
      SplitPrefix(a[1..], t, sep);
      assert [a[0]] + (a[1..] + rest[0]) == a + rest[0];
    }
  }

  /** Splitting a join of separator-free parts gives the parts back. */
  lemma {:induction false} SplitJoin(parts: seq<string>, sep: char)
    requires parts != []
    requires forall k :: 0 <= k < |parts| ==> sep !in parts[k]
    ensures Split(Join(parts, sep), sep) == parts
  {
    if |parts| == 1 {
      SplitNoSep(parts[0], sep);
    } else {
      var tail := Join(parts[1..], sep);
      SplitJoin(parts[1..], sep);
      assert parts[0] + [sep] + tail == parts[0] + ([sep] + tail);
      SplitPrefix(parts[0], [sep] + tail, sep);
      assert ([sep] + tail)[0] == sep && ([sep] + tail)[1..] == tail;
      assert Split([sep] + tail, sep) == [""] + parts[1..];
      assert parts[0] + "" == parts[0];
      assert [parts[0]] + parts[1..] == parts;
    }
  }

  /**
   When no tracked URL contains a line break, the lines after the header of
   the list reply are exactly the tracked URLs, in order.
   */
  lemma ListMessageLines(urls: seq<Url>)
    requires urls != []
    requires forall k :: 0 <= k < |urls| ==> '\n' !in urls[k]
    ensures Split(ListMessage(urls)[|ListHeader|..], '\n') == urls
  {
    var m := ListMessage(urls);
    assert m[|ListHeader|..] == Join(urls, '\n');
    SplitJoin(urls, '\n');
  }
}
