/** The capped, expiring activity feed (src/Api/Services/ActivityLog.cs). Times are clock ticks. */
module ActivityLog {

  datatype Item = Item(kind: string, target: string, summary: string, at: int)

  const TICKS_PER_MINUTE := 600_000_000

  datatype Settings = Settings(enabled: bool, retentionMinutes: nat, maxItems: nat)

  datatype Response = Disabled | Enabled(items: seq<Item>)

  function Cutoff(c: Settings, now: int): int {
    now - c.retentionMinutes * TICKS_PER_MINUTE
  }

  /** `RemoveAll(i => i.At < cutoff)`. */
  function Recent(items: seq<Item>, cutoff: int): seq<Item> {
    if items == [] then []
    else if items[0].at < cutoff then Recent(items[1..], cutoff)
    else [items[0]] + Recent(items[1..], cutoff)
  }

  function Newest(history: seq<Item>): seq<Item> {
    if history == [] then [] else [history[|history| - 1]] + Newest(history[..|history| - 1])
  }

  function Capped(items: seq<Item>, n: nat): seq<Item> {
    if |items| > n then items[..n] else items
  }

  /** The simple definition: of everything ever added, newest first, what is recent enough, capped. */
  function Shown(c: Settings, history: seq<Item>, now: int): seq<Item> {
    Capped(Recent(Newest(history), Cutoff(c, now)), c.maxItems)
  }

  predicate Ascending(history: seq<Item>) {
    forall i, j :: 0 <= i < j < |history| ==> history[i].at <= history[j].at
  }

  predicate Descending(items: seq<Item>) {
    forall i, j :: 0 <= i < j < |items| ==> items[i].at >= items[j].at
  }

  lemma {:induction false} NewestDescends(history: seq<Item>)
    requires Ascending(history)
    ensures |Newest(history)| == |history| && Descending(Newest(history))
    ensures forall i :: 0 <= i < |history| ==> Newest(history)[i] == history[|history| - 1 - i]
  {
    if history != [] {
      NewestDescends(history[..|history| - 1]);
    }
  }

  /** In a list that runs backwards in time, the recent items are a prefix. */
  lemma {:induction false} RecentIsPrefix(items: seq<Item>, cutoff: int)
    requires Descending(items)
    ensures Recent(items, cutoff) <= items
    ensures var k := |Recent(items, cutoff)|; (forall i :: 0 <= i < k ==> items[i].at >= cutoff) && (forall i :: k <= i < |items| ==> items[i].at < cutoff)
  {
    if items != [] {
      RecentIsPrefix(items[1..], cutoff);
      assert |Recent(items[1..], cutoff)| > 0 ==> items[1] == items[1..][0] && items[1].at >= cutoff;
    }
  }

  /** Pruning what was pruned and capped before loses nothing that the simple definition keeps. */
  lemma PruneAgain(all: seq<Item>, n: nat, before: int, after: int)
    requires Descending(all) && before <= after
    ensures Recent(Capped(Recent(all, before), n), after) == Capped(Recent(all, after), n)
  {
    var kept := Capped(Recent(all, before), n);
    RecentIsPrefix(all, before);
    RecentIsPrefix(all, after);
    var a, b := |Recent(all, before)|, |Recent(all, after)|;
    FewerRecent(all, before, after);
    RecentUpTo(kept, after, if b < |kept| then b else |kept|);
  }

  lemma {:induction false} FewerRecent(items: seq<Item>, before: int, after: int)
    requires before <= after
    ensures |Recent(items, after)| <= |Recent(items, before)|
  {
    if items != [] {
      FewerRecent(items[1..], before, after);
    }
  }

  /** A list whose first `k` items alone are recent. */
  lemma {:induction false} RecentUpTo(items: seq<Item>, cutoff: int, k: nat)
    requires k <= |items|
    requires (forall i :: 0 <= i < k ==> items[i].at >= cutoff) && (forall i :: k <= i < |items| ==> items[i].at < cutoff)
    ensures Recent(items, cutoff) == items[..k]
  {
    if items != [] {
      RecentUpTo(items[1..], cutoff, if k > 0 then k - 1 else 0);
    }
  }

  class ActivityLog {
    const settings: Settings
    var items: seq<Item>
    ghost var history: seq<Item>  // everything added while enabled
    ghost var clock: int          // the last reading of the clock

    /** The list is what the simple definition gives at some earlier reading of the clock. */
    ghost predicate Valid()
      reads this
    {
      && Ascending(history)
      && (forall i :: 0 <= i < |history| ==> history[i].at <= clock)
      && exists then_ :: then_ <= clock && items == Shown(settings, history, then_)
    }

    constructor (settings: Settings, start: int)
      ensures Valid() && this.settings == settings && history == [] && clock == start
    {
      this.settings := settings;
      items, history, clock := [], [], start;
      new;
      assert items == Shown(settings, history, start);
    }

    method Prune(now: int)
      requires Valid() && clock <= now
      modifies this`items, this`clock
      ensures Valid() && clock == now && items == Shown(settings, history, now)
    {
      ghost var then_ :| then_ <= clock && items == Shown(settings, history, then_);
      NewestDescends(history);
      PruneAgain(Newest(history), settings.maxItems, Cutoff(settings, then_), Cutoff(settings, now));
      items := Recent(items, Cutoff(settings, now));
      clock := now;
      assert items == Shown(settings, history, now);
    }

    /** `pruned` and `stamped` are the two readings of the clock, in the order they are made. */
    method Add(kind: string, target: string, summary: string, pruned: int, stamped: int)
      requires Valid() && clock <= pruned <= stamped
      modifies this
      ensures Valid()
      ensures history == old(history) + if settings.enabled then [Item(kind, target, summary, stamped)] else []
      ensures settings.enabled ==> clock == stamped
      ensures !settings.enabled ==> items == old(items) && clock == old(clock)
    {
      if !settings.enabled {
        return;
      }
      Prune(pruned);
      Insert(Item(kind, target, summary, stamped));
    }

    /** On top, and the list cut to its length. */
    method Insert(item: Item)
      requires Valid() && clock <= item.at && items == Shown(settings, history, clock)
      modifies this
      ensures Valid() && history == old(history) + [item] && clock == item.at
    {
      AddedAtTop(settings, history, item, clock);
      items := [item] + items;
      if |items| > settings.maxItems {
        items := items[..settings.maxItems];
      }
      history := history + [item];
      assert items == Shown(settings, history, clock);
      clock := item.at;
    }

    /** Every snapshot is the simple definition applied to the whole history. */
    method Snapshot(now: int) returns (r: Response)
      requires Valid() && clock <= now
      modifies this`items, this`clock
      ensures Valid()
      ensures r == if settings.enabled then Enabled(Shown(settings, history, now)) else Disabled
      ensures |items| <= settings.maxItems
    {
      if !settings.enabled {
        return Disabled;
      }
      Prune(now);
      r := Enabled(items);
    }
  }

  lemma AddedAtTop(c: Settings, history: seq<Item>, item: Item, pruned: int)
    requires Ascending(history) && (forall i :: 0 <= i < |history| ==> history[i].at <= item.at) && pruned <= item.at
    ensures Shown(c, history + [item], pruned) == Capped([item] + Shown(c, history, pruned), c.maxItems)
  {
    var more := history + [item];
    assert more[..|more| - 1] == history;
    assert Newest(more) == [item] + Newest(history);
    assert Newest(more)[1..] == Newest(history);
  }

  /** What is shown, item by item: the newest first, and of the last `maxItems` exactly those that are not older
      than the retention time. */
  lemma ShownAt(c: Settings, history: seq<Item>, now: int, i: nat)
    requires Ascending(history)
    ensures var shown := Shown(c, history, now);
            && (i < |shown| ==> i < |history| && shown[i] == history[|history| - 1 - i])
            && (i < |shown| <==> i < |history| && i < c.maxItems
                                 && now - history[|history| - 1 - i].at <= c.retentionMinutes * 60 * 10_000_000)
  {
    NewestDescends(history);
    RecentIsPrefix(Newest(history), Cutoff(c, now));
    if i < |history| {
      var item := Newest(history)[i];
      assert item == history[|history| - 1 - i];
      assert i < |Recent(Newest(history), Cutoff(c, now))| <==> item.at >= Cutoff(c, now);
    }
  }
}
