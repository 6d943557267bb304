/**
 * The per-chat posting policy: each configured chat gets one repeating job
 * whose first run is aligned to the next multiple of its posting interval
 * since UTC midnight (plus one second), and every chart goes out with a fixed
 * caption that names its pair as a hashtag.
 */
module ChannelUtils {
  import opened PyCore
  import opened Alignment

  /** The posting interval, in seconds, of a chat whose configuration sets none. */
  const DefaultPostingInterval: int := 3600

  /**
   * `get_seconds_until_next_interval`: the wait, in seconds, from `nowSeconds`
   * (seconds since the epoch, UTC) until the next multiple of `interval` since
   * midnight, plus one second. A zero interval raises ZeroDivisionError.
   */
  function SecondsUntilNextInterval(interval: int, nowSeconds: int): (r: Result<int>)
    ensures r.Err? <==> interval == 0
    ensures interval > 0 ==> 1 < r.value <= interval + 1
    ensures interval > 0 ==> (SinceMidnight(nowSeconds, SecondsPerDay) + (r.value - 1)) % interval == 0
    ensures interval < 0 ==> interval + 1 <= r.value < 1
  {
    if interval == 0 then Err(ZeroDivisionError)
    else Ok(UntilNextBoundary(interval, SinceMidnight(nowSeconds, SecondsPerDay)) + 1)
  }

  /**
   * The wait lands on the FIRST boundary after now: no multiple of the
   * interval lies strictly between now and the job's first run (less the
   * extra second).
   */
  lemma FirstRunIsNextBoundary(interval: int, nowSeconds: int, d: int)
    requires interval > 0
    requires 0 < d < SecondsUntilNextInterval(interval, nowSeconds).value - 1
    ensures (SinceMidnight(nowSeconds, SecondsPerDay) + d) % interval != 0
  {
    NextBoundaryIsFirst(interval, SinceMidnight(nowSeconds, SecondsPerDay), d);
  }

  /** Exactly on a boundary the wait is a whole interval plus one second. */
  lemma FirstRunAtBoundary(interval: int, nowSeconds: int)
    requires interval > 0
    ensures SinceMidnight(nowSeconds, SecondsPerDay) % interval == 0
            <==> SecondsUntilNextInterval(interval, nowSeconds).value == interval + 1
  {
    UntilNextBoundaryAtBoundary(interval, SinceMidnight(nowSeconds, SecondsPerDay));
  }

  /** One chat's configuration: its id and, when the file sets one, its posting interval. */
  datatype ChatConfig = ChatConfig(chatId: string, postingInterval: Option<int>)

  /** The arguments of one `job_queue.run_repeating` registration. */
  datatype RepeatingJob = RepeatingJob(chatId: string, interval: int, first: int)

  /** `config[chat_id].get("posting_interval", 3600)`. */
  function PostingIntervalOf(chat: ChatConfig): (r: int)
    ensures chat.postingInterval.None? ==> r == DefaultPostingInterval
    ensures chat.postingInterval.Some? ==> r == chat.postingInterval.value
  {
    chat.postingInterval.GetOr(DefaultPostingInterval)
  }

  /**
   * `initiate_periodic_charting`: registers one repeating job per chat, in
   * configuration order. A chat whose interval is zero raises
   * ZeroDivisionError, which aborts the loop: the chats before it keep their
   * jobs and the rest get none.
   */
  method InitiatePeriodicCharting(config: seq<ChatConfig>, nowSeconds: int)
    returns (jobs: seq<RepeatingJob>, error: Option<Error>)
    ensures |jobs| <= |config|
    ensures forall i :: 0 <= i < |jobs| ==>
              && jobs[i].chatId == config[i].chatId
              && jobs[i].interval == PostingIntervalOf(config[i])
              && Ok(jobs[i].first) == SecondsUntilNextInterval(jobs[i].interval, nowSeconds)
    ensures forall i :: 0 <= i < |jobs| ==> PostingIntervalOf(config[i]) != 0
    ensures error.None? <==> |jobs| == |config|
    ensures error.Some? ==> error.value == ZeroDivisionError && PostingIntervalOf(config[|jobs|]) == 0
  {
    jobs := [];
    for i := 0 to |config|
      invariant |jobs| == i
      invariant forall k :: 0 <= k < i ==>
                  && jobs[k].chatId == config[k].chatId
                  && jobs[k].interval == PostingIntervalOf(config[k])
                  && Ok(jobs[k].first) == SecondsUntilNextInterval(jobs[k].interval, nowSeconds)
      invariant forall k :: 0 <= k < i ==> PostingIntervalOf(config[k]) != 0
    {
      var postingInterval := PostingIntervalOf(config[i]);
      var firstInterval := SecondsUntilNextInterval(postingInterval, nowSeconds);
      if firstInterval.Err? {
        return jobs, Some(firstInterval.error);
      }
      jobs := jobs + [RepeatingJob(config[i].chatId, postingInterval, firstInterval.value)];
    }
    error := None;
  }

  /** The caption text before the hashtag: a blank first line, then the lightning emoji. */
  const CaptionHead: string := "\n\U{26A1}\U{FE0F} "

  /** The caption text after the pair name. */
  const CaptionTail: string :=
    " Liquidation Heatmap \U{26A1}\U{FE0F}\n\n4 Hourly Update \U{1F514}\n\n"
    + "The color range is between Purple to Yellow!\n\n"
    + "Yellow Represents Higher Number of Liquidation Levels.\n\n"
    + "https://t.me/cryptoliquidationheatmap"

  /** `get_image_caption(pair)`. */
  function ImageCaption(pair: string): (caption: string)
    ensures |caption| == |CaptionHead| + 1 + |pair| + |CaptionTail|
    ensures caption[..|CaptionHead|] == CaptionHead
    ensures caption[|CaptionHead|..|CaptionHead| + 1 + |pair|] == "#" + pair
    ensures caption[|caption| - |CaptionTail|..] == CaptionTail
  {
    CaptionHead + "#" + pair + CaptionTail
  }

  /** The caption carries the pair as a hashtag. */
  lemma CaptionTagsPair(pair: string)
    ensures Contains(ImageCaption(pair), "#" + pair)
  {
    ContainsAt(ImageCaption(pair), "#" + pair, |CaptionHead|);
  }

  /** The pair is the only varying part: two captions are equal exactly when their pairs are. */
  lemma CaptionDeterminesPair(p: string, q: string)
    ensures ImageCaption(p) == ImageCaption(q) <==> p == q
  {
    if ImageCaption(p) == ImageCaption(q) {
      var n := |CaptionHead| + 1;
      assert |p| == |q|;
      assert ImageCaption(p)[n..n + |p|] == p;
      assert ImageCaption(q)[n..n + |q|] == q;
    }
  }

  /** Removing the hashtag's pair from any caption leaves the same fixed text. */
  lemma CaptionTextIsFixed(p: string, q: string)
    ensures ImageCaption(p)[..|CaptionHead| + 1] == ImageCaption(q)[..|CaptionHead| + 1] == CaptionHead + "#"
    ensures ImageCaption(p)[|CaptionHead| + 1 + |p|..] == ImageCaption(q)[|CaptionHead| + 1 + |q|..] == CaptionTail
  {
    var n := |CaptionHead| + 1;
    assert ImageCaption(p)[..n] == CaptionHead + "#";
    assert ImageCaption(q)[..n] == CaptionHead + "#";
  }
}
