/**
 * Two state machines of a Markdown preview: the one that decides at each look whether to draw a changed
 * document, and the one that moves preview or editor after the other. Offsets are real numbers.
 */
module Preview {
  import opened Outcome

  // ---------- lines and offsets ----------

  /** How many of the first `n` values are at most `x`, where they ascend. */
  function CountUpTo(values: seq<real>, n: nat, x: real): (i: nat)
    requires n <= |values|
    ensures i <= n && (forall k :: 0 <= k < i ==> values[k] <= x) && (i < n ==> x < values[i])
  {
    PartitionFrom(values, n, x, 0)
  }

  function PartitionFrom(values: seq<real>, n: nat, x: real, k: nat): (i: nat)
    requires k <= n <= |values| && forall m :: 0 <= m < k ==> values[m] <= x
    ensures k <= i <= n && (forall m :: 0 <= m < i ==> values[m] <= x) && (i < n ==> x < values[i])
    decreases n - k
  {
    if k == n || x < values[k] then k else PartitionFrom(values, n, x, k + 1)
  }

  function Reals(lines: seq<nat>): (r: seq<real>)
    ensures |r| == |lines|
  {
    seq(|lines|, i requires 0 <= i < |lines| => lines[i] as real)
  }

  function Min(a: real, b: real): real {
    if a < b then a else b
  }

  function Max(a: real, b: real): real {
    if a < b then b else a
  }

  function Least(a: nat, b: nat): nat {
    if a < b then a else b
  }

  /** The way through a block of `span` lines its `a`th line is. */
  function Share(a: nat, span: nat): real
    requires span > 0
  {
    Min(a as real / span as real, 1.0)
  }

  function Stretch(top: real, next: real, share: real): real {
    top + (next - top) * share
  }

  /** The way through a block an offset is; a block counts as at least one point tall. */
  function Through(offset: real, top: real, next: real): (t: real)
    ensures 0.0 <= t <= 1.0
  {
    Max(0.0, Min((offset - top) / Max(next - top, 1.0), 1.0))
  }

  function WholeLines(through: real, span: nat): (n: nat)
    requires 0.0 <= through <= 1.0
    ensures n <= span
  {
    LinesIn(through, span);
    (through * span as real).Floor
  }

  lemma {:induction false} LinesIn(through: real, span: nat)
    requires 0.0 <= through <= 1.0
    ensures 0 <= (through * span as real).Floor <= span
  {
    assert through * span as real >= 0.0;
    assert through * span as real <= span as real;
  }

  /** The line's block, and as much of it as the line is into the block; `None` before the first block. */
  function OffsetForLine(lines: seq<nat>, tops: seq<real>, line: nat): Option<real> {
    var n := Least(|lines|, |tops|);
    var past := CountUpTo(Reals(lines), n, line as real);
    if past == 0 then None
    else
      var i := past - 1;
      if past == n then Some(tops[i])
      else
        assert Reals(lines)[i] <= line as real < Reals(lines)[past];
        Some(Stretch(tops[i], tops[past], Share(line - lines[i], lines[past] - lines[i])))
  }

  /** The block drawn there, and as many of its lines as the offset is into it, rounded down. */
  function LineForOffset(lines: seq<nat>, tops: seq<real>, offset: real): Option<nat> {
    var n := Least(|lines|, |tops|);
    var past := CountUpTo(tops, n, offset);
    var i := if past == 0 then 0 else past - 1;
    if n == 0 then None
    else if i + 1 == n then Some(lines[i])
    else
      var span := if lines[i + 1] > lines[i] then lines[i + 1] - lines[i] else 0;
      Some(lines[i] + WholeLines(Through(offset, tops[i], tops[i + 1]), span))
  }

  // ---------- following a document ----------

  datatype Shown = Nothing | Document(version: nat) | Disk

  /** A version waiting to be drawn: `first` is when the waiting began, `last` when this version came. */
  datatype Pending = Pending(version: nat, first: int, last: int)

  datatype Following = Following(shown: Shown, pending: Option<Pending>, refresh: bool)

  function Since(now: int, t: int): int {
    if now > t then now - t else 0
  }

  function PendingAt(f: Following, version: nat, now: int): Pending {
    if f.pending.None? then Pending(version, now, now)
    else if f.pending.value.version == version then f.pending.value
    else Pending(version, f.pending.value.first, now)
  }

  function ShowVersion(version: nat): Following {
    Following(Document(version), None, false)
  }

  /** The state after a look at the document, and how long until the next is due. */
  function Followed(f: Following, version: nat, now: int, delay: int, wait: int): (Following, Option<int>) {
    if f.shown == Document(version) && !f.refresh then (f.(pending := None), None)
    else if !f.shown.Document? || f.refresh then (ShowVersion(version), None)
    else
      var p := PendingAt(f, version, now);
      var quiet, waited := Since(now, p.last), Since(now, p.first);
      if quiet >= delay || waited >= wait then (ShowVersion(version), None)
      else (f.(pending := Some(p)), Some(if delay - quiet < wait - waited then delay - quiet else wait - waited))
  }

  // ---------- scroll sync ----------

  /** What one call of the sync reads and writes: the drawing, the place, the last agreement, and whether
      an answer is awaited. */
  datatype Sync = Sync(lines: seq<nat>, tops: seq<real>, scroll: real, restore: Option<real>, syncedLine: Option<nat>,
                       syncedOffset: real, syncedShowing: nat, showing: nat, settling: bool)

  function Distance(a: real, b: real): real {
    if a < b then b - a else a - b
  }

  predicate Ready(s: Sync) {
    s.lines != [] && s.tops != []
  }

  predicate Leads(s: Sync, editorTop: Option<nat>) {
    editorTop.Some? && (editorTop != s.syncedLine || s.syncedShowing != s.showing)
  }

  /** One call: the new state, and the line the editor is to be put at. */
  function Synced(s: Sync, editorTop: Option<nat>): (Sync, Option<nat>) {
    if !Ready(s) then (s, None)
    else if s.settling then (s.(settling := false, syncedLine := editorTop, syncedOffset := s.scroll), None)
    else if Leads(s, editorTop) then
      var matched := s.(syncedShowing := s.showing, syncedLine := editorTop);
      var offset := OffsetForLine(s.lines, s.tops, editorTop.value);
      if offset.Some? && Distance(offset.value, s.scroll) > 0.5 then (matched.(restore := offset, settling := true), None)
      else (matched, None)
    else if Distance(s.scroll, s.syncedOffset) > 0.5 then
      var matched := s.(syncedOffset := s.scroll);
      var line := LineForOffset(s.lines, s.tops, s.scroll);
      if line.Some? && line != editorTop then (matched.(syncedLine := line, settling := true), line) else (matched, None)
    else (s, None)
  }

  class PreviewState {
    var shown: Shown
    var pending: Option<Pending>
    var refresh: bool
    var lines: seq<nat>
    var blockTops: seq<real>
    var scroll: real
    var restore: Option<real>
    var syncedLine: Option<nat>
    var syncedOffset: real
    var syncedShowing: nat
    var showing: nat
    var settling: bool

    function Follow(): Following
      reads this
    {
      Following(shown, pending, refresh)
    }

    function Place(): Sync
      reads this
    {
      Sync(lines, blockTops, scroll, restore, syncedLine, syncedOffset, syncedShowing, showing, settling)
    }

    constructor ()
      ensures Follow() == Following(Nothing, None, false)
      ensures Place() == Sync([], [], 0.0, None, None, 0.0, 0, 0, false)
    {
      shown, pending, refresh := Nothing, None, false;
      lines, blockTops, scroll, restore := [], [], 0.0, None;
      syncedLine, syncedOffset, syncedShowing, showing, settling := None, 0.0, 0, 0, false;
    }

    /** Show a version of the document, whose blocks start at `blocks`. */
    method ShowText(blocks: seq<nat>, version: nat)
      modifies this
      ensures Follow() == ShowVersion(version)
      ensures Place() == old(Place()).(lines := blocks, showing := old(showing) + 1)
    {
      lines := blocks;
      showing := showing + 1;
      shown := Document(version);
      pending := None;
      refresh := false;
    }

    /** One look: either the version is drawn, or it stays pending and `due` is the time until one of the
        two limits is reached. */
    method FollowDocument(blocks: seq<nat>, version: nat, now: int, delay: int, wait: int) returns (due: Option<int>)
      modifies this
      ensures (Follow(), due) == Followed(old(Follow()), version, now, delay, wait)
      ensures showing == old(showing) ==> Place() == old(Place())
      ensures showing != old(showing) ==> Place() == old(Place()).(lines := blocks, showing := old(showing) + 1)
    {
      if shown == Document(version) && !refresh {
        pending := None;
        return None;
      }
      if !shown.Document? || refresh {
        ShowText(blocks, version);
        return None;
      }
      var first, last := now, now;
      if pending.Some? {
        first := pending.value.first;
        if pending.value.version == version {
          last := pending.value.last;
        }
      }
      var quiet, waited := Since(now, last), Since(now, first);
      if quiet >= delay || waited >= wait {
        ShowText(blocks, version);
        return None;
      }
      pending := Some(Pending(version, first, last));
      return Some(if delay - quiet < wait - waited then delay - quiet else wait - waited);
    }

    /** One call: it acknowledges an answer, follows the editor, leads the editor, or does nothing. */
    method SyncWith(editorTop: Option<nat>) returns (line: Option<nat>)
      modifies this
      ensures (Place(), line) == Synced(old(Place()), editorTop)
      ensures Follow() == old(Follow())
    {
      if lines == [] || blockTops == [] {
        return None;
      }
      if settling {
        settling := false;
        syncedLine := editorTop;
        syncedOffset := scroll;
        return None;
      }
      var redrawn := syncedShowing != showing;
      var editorMoved := editorTop.Some? && editorTop != syncedLine;
      if editorTop.Some? && (editorMoved || redrawn) {
        syncedShowing := showing;
        syncedLine := editorTop;
        var offset := OffsetForLine(lines, blockTops, editorTop.value);
        if offset.Some? && Distance(offset.value, scroll) > 0.5 {
          restore := offset;
          settling := true;
        }
        return None;
      }
      if Distance(scroll, syncedOffset) > 0.5 {
        syncedOffset := scroll;
        var target := LineForOffset(lines, blockTops, scroll);
        if target.Some? && target != editorTop {
          syncedLine := target;
          settling := true;
          return target;
        }
      }
      return None;
    }
  }
}
