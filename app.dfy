/**
 * The pure and step-by-step logic of app.py once HTTP and Flask are
 * stripped away: the reorder calls `shuffle_playlist` issues, what they do
 * to the playlist, and the owner filter of the `playlists` page.
 */
module App {
  import opened Wrappers
  import opened Draws

  // ---------------------------------------------------------------------
  // reorder_tracks and its effect on the remote playlist
  // ---------------------------------------------------------------------

  /** The JSON body of one `reorder_tracks` PUT. */
  datatype Reorder = Reorder(rangeStart: int, insertBefore: int)

  /**
   * The playlist after one reorder, position by position: the track at
   * `from` is taken out and put back immediately before the track that was
   * at `before` (`before == |s|` puts it last); the tracks in between shift
   * one place towards the gap it left and every other track stays.
   */
  function Move<T>(s: seq<T>, from: int, before: int): (r: seq<T>)
    requires 0 <= from < |s| && 0 <= before <= |s|
    ensures |r| == |s|
    ensures before <= from ==> r[before] == s[from]
    ensures from < before ==> r[before - 1] == s[from]
    ensures forall q :: 0 <= q < |s| && q < from && q < before ==> r[q] == s[q]
    ensures forall q :: from < q < |s| && before <= q ==> r[q] == s[q]
  {
    seq(|s|, q requires 0 <= q < |s| =>
      if before <= from then
        if q < before || from < q then s[q] else if q == before then s[from] else s[q - 1]
      else
        if q < from || before <= q then s[q] else if q == before - 1 then s[from] else s[q + 1])
  }

  /** `s` without its element at `i`. */
  function Remove<T>(s: seq<T>, i: int): seq<T>
    requires 0 <= i < |s|
  {
    s[..i] + s[i + 1..]
  }

  /** `s` with `x` inserted so that it ends up at position `i`. */
  function Insert<T>(s: seq<T>, i: int, x: T): seq<T>
    requires 0 <= i <= |s|
  {
    s[..i] + [x] + s[i..]
  }

  /**
   * The move is the remove-then-insert that the `reorder_tracks` docstring
   * describes: take the track out of `range_start`, then insert it before
   * the track that was at `insert_before`, which after the removal stands
   * one place earlier when it came after the moved track.
   */
  lemma MoveIsRemoveInsert<T>(s: seq<T>, from: int, before: int)
    requires 0 <= from < |s| && 0 <= before <= |s|
    ensures Move(s, from, before) == Insert(Remove(s, from), if before <= from then before else before - 1, s[from])
  {
    var u := Remove(s, from);
    var p := if before <= from then before else before - 1;
    var r := Insert(u, p, s[from]);
    forall q | 0 <= q < |s| ensures Move(s, from, before)[q] == r[q] {
      if q < p {
        assert r[q] == u[q];
      } else if q > p {
        assert r[q] == u[q - 1];
      }
    }
  }

  /** A reorder keeps the playlist's tracks: it is a permutation. */
  lemma MovePermutes<T>(s: seq<T>, from: int, before: int)
    requires 0 <= from < |s| && 0 <= before <= |s|
    ensures multiset(Move(s, from, before)) == multiset(s)
  {
    MoveIsRemoveInsert(s, from, before);
    var p := if before <= from then before else before - 1;
    var u := Remove(s, from);
    assert s == s[..from] + [s[from]] + s[from + 1..];
    assert multiset(s) == multiset(u) + multiset{s[from]};
    assert u == u[..p] + u[p..];
    assert multiset(Insert(u, p, s[from])) == multiset(u) + multiset{s[from]};
  }

  /** A call with `range_start == insert_before` leaves the playlist as it is. */
  lemma SelfMoveIsNoOp<T>(s: seq<T>, i: int)
    requires 0 <= i < |s|
    ensures Move(s, i, i) == s
  {
  }

  /** Every call of `calls` names a track and a position of a playlist of `n` tracks. */
  predicate InRange(n: int, calls: seq<Reorder>) {
    forall k :: 0 <= k < |calls| ==> 0 <= calls[k].rangeStart < n && 0 <= calls[k].insertBefore <= n
  }

  /** The playlist after the remote service has carried out `calls` in order. */
  function ApplyAll<T>(s: seq<T>, calls: seq<Reorder>): (r: seq<T>)
    requires InRange(|s|, calls)
    ensures |r| == |s|
    decreases |calls|
  {
    if calls == [] then s
    else ApplyAll(Move(s, calls[0].rangeStart, calls[0].insertBefore), calls[1..])
  }

  /** Any sequence of in-range reorders keeps the playlist's tracks. */
  lemma {:induction false} ApplyAllPermutes<T>(s: seq<T>, calls: seq<Reorder>)
    requires InRange(|s|, calls)
    ensures multiset(ApplyAll(s, calls)) == multiset(s)
    decreases |calls|
  {
    if calls != [] {
      MovePermutes(s, calls[0].rangeStart, calls[0].insertBefore);
      ApplyAllPermutes(Move(s, calls[0].rangeStart, calls[0].insertBefore), calls[1..]);
    }
  }

  /** Carrying out one more call is one more move on the result so far. */
  lemma {:induction false} ApplyAllSnoc<T>(s: seq<T>, calls: seq<Reorder>, c: Reorder)
    requires InRange(|s|, calls) && 0 <= c.rangeStart < |s| && 0 <= c.insertBefore <= |s|
    ensures InRange(|s|, calls + [c])
    ensures ApplyAll(s, calls + [c]) == Move(ApplyAll(s, calls), c.rangeStart, c.insertBefore)
    decreases |calls|
  {
    if calls != [] {
      var s1 := Move(s, calls[0].rangeStart, calls[0].insertBefore);
      assert (calls + [c])[1..] == calls[1..] + [c];
      ApplyAllSnoc(s1, calls[1..], c);
    }
  }

  // ---------------------------------------------------------------------
  // shuffle_playlist, as written
  // ---------------------------------------------------------------------

  /**
   * The calls of `for i in range(num_tracks - 1, 0, -1)`: the `k`-th moves
   * the track at `n - 1 - k` before the position drawn for it.
   */
  function DescendingCalls(n: int, d: seq<int>): (r: seq<Reorder>)
    ensures |r| == |d|
  {
    seq(|d|, k requires 0 <= k < |d| => Reorder(n - 1 - k, d[k]))
  }

  /** One more iteration of the loop issues one more call. */
  lemma DescendingCallsStep(n: int, d: seq<int>, k: nat)
    requires k < |d|
    ensures DescendingCalls(n, d[..k + 1]) == DescendingCalls(n, d[..k]) + [Reorder(n - 1 - k, d[k])]
  {
  }

  /**
   * The reorder loop of `shuffle_playlist`. `fetchStatus` is the status of
   * the playlist fetch and `tracks` the playlist it describes (so
   * `num_tracks == |tracks|`); `draws[k]` is the `randint(0, i)` of the
   * `k`-th iteration. Returns the calls sent, in order, and the playlist
   * the remote service holds once it has carried them out.
   */
  method ShufflePlaylist<T>(fetchStatus: int, tracks: seq<T>, draws: seq<int>)
    returns (calls: seq<Reorder>, after: seq<T>)
    requires fetchStatus == 200 ==> Descending(|tracks|, draws)
    ensures fetchStatus != 200 ==> calls == [] && after == tracks
    ensures fetchStatus == 200 ==> |calls| == Steps(|tracks|)
    ensures fetchStatus == 200 ==> forall k :: 0 <= k < |calls| ==>
      calls[k].rangeStart == |tracks| - 1 - k && calls[k].insertBefore == draws[k]
    ensures forall k :: 0 <= k < |calls| ==>
      0 <= calls[k].insertBefore <= calls[k].rangeStart < |tracks|
    ensures InRange(|tracks|, calls) && after == ApplyAll(tracks, calls)
    ensures multiset(after) == multiset(tracks)
  {
    calls, after := [], tracks;
    if fetchStatus == 200 {
      var numTracks := |tracks|;
      var i := numTracks - 1;
      while i > 0
        invariant numTracks == 0 ==> i == -1
        invariant numTracks > 0 ==> 0 <= i < numTracks
        invariant calls == DescendingCalls(numTracks, draws[..numTracks - 1 - i])
        invariant InRange(numTracks, calls) && after == ApplyAll(tracks, calls)
      {
        var j := draws[numTracks - 1 - i];
        var call := Reorder(i, j);
        ApplyAllSnoc(tracks, calls, call);
        DescendingCallsStep(numTracks, draws, numTracks - 1 - i);
        after := Move(after, i, j);
        calls := calls + [call];
        i := i - 1;
      }
      assert draws[..numTracks - 1 - i] == draws;
    }
    ApplyAllPermutes(tracks, calls);
  }

  /**
   * Moves that take a track before `m` and put it back no later than `m`
   * leave every position from `m` on untouched.
   */
  lemma {:induction false} ApplyAllKeepsTail<T>(s: seq<T>, calls: seq<Reorder>, m: int, p: int)
    requires InRange(|s|, calls) && 0 <= m <= p < |s|
    requires forall k :: 0 <= k < |calls| ==> calls[k].rangeStart < m && calls[k].insertBefore <= m
    ensures ApplyAll(s, calls)[p] == s[p]
    decreases |calls|
  {
    if calls != [] {
      var s1 := Move(s, calls[0].rangeStart, calls[0].insertBefore);
      assert s1[p] == s[p];
      ApplyAllKeepsTail(s1, calls[1..], m, p);
    }
  }

  /**
   * As written, the loop cannot put just any track last: the first call
   * decides the last position, and it holds the old last or second-to-last
   * track, never an earlier one.
   */
  lemma AsWrittenLastIsFromTail<T>(s: seq<T>, d: seq<int>)
    requires |s| >= 2 && Descending(|s|, d)
    ensures var r := ApplyAll(s, DescendingCalls(|s|, d));
      r[|s| - 1] == s[|s| - 1] || r[|s| - 1] == s[|s| - 2]
  {
    var n := |s|;
    var calls := DescendingCalls(n, d);
    var s1 := Move(s, n - 1, d[0]);
    assert ApplyAll(s, calls) == ApplyAll(s1, calls[1..]);
    ApplyAllKeepsTail(s1, calls[1..], n - 1, n - 1);
  }

  /**
   * So, on the playlist `[0, 1, 2]`, no sequence of draws yields the
   * ordering `[1, 2, 0]`: one of the 3! orderings is never produced.
   */
  lemma AsWrittenMissesAnOrdering(d: seq<int>)
    requires Descending(3, d)
    ensures ApplyAll([0, 1, 2], DescendingCalls(3, d)) != [1, 2, 0]
  {
    AsWrittenLastIsFromTail([0, 1, 2], d);
  }

  // ---------------------------------------------------------------------
  // shuffle_playlist, corrected to an insertion shuffle
  // ---------------------------------------------------------------------

  /**
   * The calls of `for i in range(1, num_tracks)`: the `k`-th moves the
   * track at `k + 1` before the position drawn for it.
   */
  function AscendingCalls(d: seq<int>): (r: seq<Reorder>)
    ensures |r| == |d|
  {
    seq(|d|, k requires 0 <= k < |d| => Reorder(k + 1, d[k]))
  }

  /** One more iteration of the corrected loop issues one more call. */
  lemma AscendingCallsStep(d: seq<int>, k: nat)
    requires k < |d|
    ensures AscendingCalls(d[..k + 1]) == AscendingCalls(d[..k]) + [Reorder(k + 1, d[k])]
  {
  }

  /** A track appended after every track the calls name stays last and does not disturb them. */
  lemma {:induction false} ApplyAllAppend<T>(p: seq<T>, x: T, calls: seq<Reorder>)
    requires InRange(|p|, calls)
    ensures InRange(|p + [x]|, calls)
    ensures ApplyAll(p + [x], calls) == ApplyAll(p, calls) + [x]
    decreases |calls|
  {
    if calls != [] {
      var f, b := calls[0].rangeStart, calls[0].insertBefore;
      assert Move(p + [x], f, b) == Move(p, f, b) + [x];
      ApplyAllAppend(Move(p, f, b), x, calls[1..]);
    }
  }

  /**
   * The last iteration of the corrected loop on `s' + [x]` inserts `x`
   * into the playlist the earlier iterations left, before position `j`.
   */
  lemma InsertAfterPrefix<T>(s': seq<T>, x: T, calls': seq<Reorder>, j: int)
    requires InRange(|s'|, calls') && 0 <= j <= |s'|
    ensures InRange(|s'| + 1, calls' + [Reorder(|s'|, j)])
    ensures ApplyAll(s' + [x], calls' + [Reorder(|s'|, j)]) == Insert(ApplyAll(s', calls'), j, x)
  {
    ApplyAllAppend(s', x, calls');
    ApplyAllSnoc(s' + [x], calls', Reorder(|s'|, j));
    var u := ApplyAll(s', calls');
    MoveIsRemoveInsert(u + [x], |s'|, j);
    assert Remove(u + [x], |s'|) == u;
  }

  /** Draws valid for the corrected loop over `n` tracks give calls in range. */
  lemma AscendingInRange(n: int, d: seq<int>)
    requires Ascending(n, d)
    ensures InRange(n, AscendingCalls(d))
  {
  }

  /** One more track admits one more draw, from `[0, n]`. */
  lemma AscendingSnoc(n: int, d: seq<int>, j: int)
    requires n >= 1 && Ascending(n, d) && 0 <= j <= n
    ensures Ascending(n + 1, d + [j])
  {
  }

  /**
   * Where the last track of `s` sits in a rearrangement `t`: taking it out
   * of `t` leaves a rearrangement of the other tracks.
   */
  lemma RemoveMatching<T>(s: seq<T>, t: seq<T>) returns (j: int)
    requires |s| >= 1 && multiset(t) == multiset(s)
    ensures 0 <= j < |t| == |s| && t[j] == s[|s| - 1]
    ensures multiset(Remove(t, j)) == multiset(s[..|s| - 1])
  {
    var n := |s|;
    var x := s[n - 1];
    assert |t| == |multiset(t)| == n;
    assert x in multiset(t);
    j :| 0 <= j < n && t[j] == x;
    assert t == t[..j] + [x] + t[j + 1..];
    assert s == s[..n - 1] + [x];
    assert multiset(Remove(t, j)) == multiset(t) - multiset{x};
  }

  /** A playlist of at most one track has only one ordering. */
  lemma ShortRearrangementIsSame<T>(s: seq<T>, t: seq<T>)
    requires |s| <= 1 && multiset(t) == multiset(s)
    ensures t == s
  {
    assert |t| == |multiset(t)| == |s|;
    if |s| == 1 {
      assert t[0] in multiset(s);
    }
  }

  /**
   * If the earlier iterations turn `s` without its last track into `t`
   * without that track's position `j`, drawing `j` last yields `t`.
   */
  lemma InsertionStep<T>(s: seq<T>, t: seq<T>, d': seq<int>, j: int)
    requires |s| >= 2 && |t| == |s| && 0 <= j < |s| && t[j] == s[|s| - 1]
    requires Ascending(|s| - 1, d')
    requires ApplyAll(s[..|s| - 1], AscendingCalls(d')) == Remove(t, j)
    ensures Ascending(|s|, d' + [j])
    ensures ApplyAll(s, AscendingCalls(d' + [j])) == t
  {
    var n := |s|;
    var s' := s[..n - 1];
    AscendingInRange(n - 1, d');
    AscendingSnoc(n - 1, d', j);
    assert s == s' + [s[n - 1]];
    AscendingCallsStep(d' + [j], n - 2);
    assert (d' + [j])[..n - 2] == d' && (d' + [j])[..n - 1] == d' + [j];
    InsertAfterPrefix(s', s[n - 1], AscendingCalls(d'), j);
    InsertRemove(t, j);
  }

  /** Taking an element out and putting it back where it was restores the sequence. */
  lemma InsertRemove<T>(t: seq<T>, j: int)
    requires 0 <= j < |t|
    ensures Insert(Remove(t, j), j, t[j]) == t
  {
    assert Remove(t, j)[..j] == t[..j] && Remove(t, j)[j..] == t[j + 1..];
  }

  /**
   * The insertion shuffle reaches every ordering: for each rearrangement
   * `t` of the playlist there are draws, each in `[0, i]`, whose calls turn
   * the playlist into `t`.
   */
  lemma {:induction false} InsertionReachesEveryOrdering<T>(s: seq<T>, t: seq<T>) returns (d: seq<int>)
    requires multiset(t) == multiset(s)
    ensures Ascending(|s|, d)
    ensures ApplyAll(s, AscendingCalls(d)) == t
    decreases |s|
  {
    if |s| <= 1 {
      d := [];
      ShortRearrangementIsSame(s, t);
    } else {
      var n := |s|;
      var j := RemoveMatching(s, t);
      var d' := InsertionReachesEveryOrdering(s[..n - 1], Remove(t, j));
      d := d' + [j];
      InsertionStep(s, t, d', j);
    }
  }

  /**
   * The corrected loop: `for i in range(1, num_tracks)`, moving the track
   * at `i` before a position drawn from `[0, i]`. Its calls stay in range,
   * keep the playlist's tracks, and (by InsertionReachesEveryOrdering)
   * can produce every ordering.
   */
  method ShufflePlaylistByInsertion<T>(fetchStatus: int, tracks: seq<T>, draws: seq<int>)
    returns (calls: seq<Reorder>, after: seq<T>)
    requires fetchStatus == 200 ==> Ascending(|tracks|, draws)
    ensures fetchStatus != 200 ==> calls == [] && after == tracks
    ensures fetchStatus == 200 ==> |calls| == Steps(|tracks|)
    ensures fetchStatus == 200 ==> forall k :: 0 <= k < |calls| ==>
      calls[k].rangeStart == k + 1 && calls[k].insertBefore == draws[k]
    ensures forall k :: 0 <= k < |calls| ==>
      0 <= calls[k].insertBefore <= calls[k].rangeStart < |tracks|
    ensures InRange(|tracks|, calls) && after == ApplyAll(tracks, calls)
    ensures multiset(after) == multiset(tracks)
  {
    calls, after := [], tracks;
    if fetchStatus == 200 {
      var numTracks := |tracks|;
      var i := 1;
      while i < numTracks
        invariant numTracks == 0 ==> i == 1
        invariant numTracks > 0 ==> 1 <= i <= numTracks
        invariant calls == AscendingCalls(draws[..i - 1])
        invariant InRange(numTracks, calls) && after == ApplyAll(tracks, calls)
      {
        var j := draws[i - 1];
        var call := Reorder(i, j);
        ApplyAllSnoc(tracks, calls, call);
        AscendingCallsStep(draws, i - 1);
        after := Move(after, i, j);
        calls := calls + [call];
        i := i + 1;
      }
      assert numTracks > 0 ==> draws[..i - 1] == draws;
    }
    ApplyAllPermutes(tracks, calls);
  }

  // ---------------------------------------------------------------------
  // playlists: the owner filter and display format
  // ---------------------------------------------------------------------

  /** An entry of a playlist's `images` array. */
  datatype Image = Image(url: string)

  /**
   * The fields of one playlist of `/me/playlists` that the page reads;
   * `images` is `None` when the service sends `null`.
   */
  datatype PlaylistData = PlaylistData(id: string, name: string, images: Option<seq<Image>>, ownerId: string)

  /** One entry of `playlists_display_format`. */
  datatype Display = Display(id: string, name: string, image: Option<string>)

  /** The comprehension's filter; a missing user id (`None`) matches no owner. */
  predicate OwnedBy(p: PlaylistData, userId: Option<string>) {
    userId == Some(p.ownerId)
  }

  /** The comprehension's element: id, name and the first image's URL, if any. */
  function Format(p: PlaylistData): (r: Display)
    ensures r.id == p.id && r.name == p.name
    ensures r.image.Some? <==> p.images.Some? && |p.images.value| > 0
    ensures r.image.Some? ==> r.image.value == p.images.value[0].url
  {
    Display(p.id, p.name, if p.images.Some? && p.images.value != [] then Some(p.images.value[0].url) else None)
  }

  /** `playlists_display_format`: the user's own playlists, formatted, in order. */
  function DisplayFormat(items: seq<PlaylistData>, userId: Option<string>): (r: seq<Display>)
    ensures |r| <= |items|
    ensures (forall i :: 0 <= i < |items| ==> OwnedBy(items[i], userId)) ==> |r| == |items|
    ensures (forall i :: 0 <= i < |items| ==> !OwnedBy(items[i], userId)) ==> r == []
  {
    if items == [] then []
    else if OwnedBy(items[0], userId) then [Format(items[0])] + DisplayFormat(items[1..], userId)
    else DisplayFormat(items[1..], userId)
  }

  /** The indices `idx` increase strictly. */
  predicate Increasing(idx: seq<int>) {
    forall a, b :: 0 <= a < b < |idx| ==> idx[a] < idx[b]
  }

  /** Every index of `idx` picks a playlist of `items` that the user owns. */
  predicate PicksOwned(items: seq<PlaylistData>, userId: Option<string>, idx: seq<int>) {
    forall k :: 0 <= k < |idx| ==> 0 <= idx[k] < |items| && OwnedBy(items[idx[k]], userId)
  }

  /** Every playlist of `items` that the user owns is picked by `idx`. */
  predicate PicksAllOwned(items: seq<PlaylistData>, userId: Option<string>, idx: seq<int>) {
    forall i :: 0 <= i < |items| && OwnedBy(items[i], userId) ==> i in idx
  }

  /** The indices of the owned playlists among `items`, from those among `items[1..]`. */
  function Extend(items: seq<PlaylistData>, userId: Option<string>, rest: seq<int>): seq<int>
    requires items != []
  {
    (if OwnedBy(items[0], userId) then [0] else []) + seq(|rest|, k requires 0 <= k < |rest| => rest[k] + 1)
  }

  lemma ExtendIncreasing(items: seq<PlaylistData>, userId: Option<string>, rest: seq<int>)
    requires items != [] && Increasing(rest) && PicksOwned(items[1..], userId, rest)
    ensures Increasing(Extend(items, userId, rest))
  {
    var idx := Extend(items, userId, rest);
    var h := if OwnedBy(items[0], userId) then 1 else 0;
    forall a, b | 0 <= a < b < |idx| ensures idx[a] < idx[b] {
      assert idx[b] == rest[b - h] + 1;
    }
  }

  lemma ExtendPicksOwned(items: seq<PlaylistData>, userId: Option<string>, rest: seq<int>)
    requires items != [] && PicksOwned(items[1..], userId, rest)
    ensures PicksOwned(items, userId, Extend(items, userId, rest))
  {
    var idx := Extend(items, userId, rest);
    var h := if OwnedBy(items[0], userId) then 1 else 0;
    forall k | h <= k < |idx| ensures 0 <= idx[k] < |items| && OwnedBy(items[idx[k]], userId) {
      assert idx[k] == rest[k - h] + 1 && items[1..][rest[k - h]] == items[idx[k]];
    }
  }

  lemma ExtendPicksAllOwned(items: seq<PlaylistData>, userId: Option<string>, rest: seq<int>)
    requires items != [] && PicksAllOwned(items[1..], userId, rest)
    ensures PicksAllOwned(items, userId, Extend(items, userId, rest))
  {
    var idx := Extend(items, userId, rest);
    var h := if OwnedBy(items[0], userId) then 1 else 0;
    forall i | 0 <= i < |items| && OwnedBy(items[i], userId) ensures i in idx {
      if i == 0 {
        assert idx[0] == 0;
      } else {
        assert items[1..][i - 1] == items[i];
        var k :| 0 <= k < |rest| && rest[k] == i - 1;
        assert idx[h + k] == i;
      }
    }
  }

  /** Entry `k` of the display list of `items` is the formatted playlist at `idx[k]`. */
  predicate FormatsPicked(items: seq<PlaylistData>, userId: Option<string>, idx: seq<int>)
    requires PicksOwned(items, userId, idx)
  {
    |idx| == |DisplayFormat(items, userId)|
    && forall k :: 0 <= k < |idx| ==> DisplayFormat(items, userId)[k] == Format(items[idx[k]])
  }

  lemma ExtendFormatsPicked(items: seq<PlaylistData>, userId: Option<string>, rest: seq<int>)
    requires items != [] && PicksOwned(items[1..], userId, rest)
    requires FormatsPicked(items[1..], userId, rest)
    ensures PicksOwned(items, userId, Extend(items, userId, rest))
    ensures FormatsPicked(items, userId, Extend(items, userId, rest))
  {
    ExtendPicksOwned(items, userId, rest);
    var tail := items[1..];
    var idx := Extend(items, userId, rest);
    var r, r' := DisplayFormat(items, userId), DisplayFormat(tail, userId);
    if OwnedBy(items[0], userId) {
      assert r == [Format(items[0])] + r';
      forall k | 1 <= k < |idx| ensures r[k] == Format(items[idx[k]]) {
        assert r[k] == r'[k - 1] && idx[k] == rest[k - 1] + 1;
        assert tail[rest[k - 1]] == items[idx[k]];
      }
    } else {
      assert r == r';
      forall k | 0 <= k < |idx| ensures r[k] == Format(items[idx[k]]) {
        assert idx[k] == rest[k] + 1;
        assert tail[rest[k]] == items[idx[k]];
      }
    }
  }

  /**
   * The display list is exactly the owned playlists, in their original
   * order: entry `k` is the formatted playlist at `idx[k]`, the indices
   * increase, each picks a playlist the user owns and every owned playlist
   * is picked.
   */
  lemma {:induction false} DisplayFormatSelectsOwned(items: seq<PlaylistData>, userId: Option<string>)
    returns (idx: seq<int>)
    ensures Increasing(idx) && PicksOwned(items, userId, idx) && PicksAllOwned(items, userId, idx)
    ensures |idx| == |DisplayFormat(items, userId)|
    ensures forall k :: 0 <= k < |idx| ==> DisplayFormat(items, userId)[k] == Format(items[idx[k]])
    decreases |items|
  {
    if items == [] {
      idx := [];
    } else {
      var rest := DisplayFormatSelectsOwned(items[1..], userId);
      idx := Extend(items, userId, rest);
      ExtendIncreasing(items, userId, rest);
      ExtendPicksAllOwned(items, userId, rest);
      ExtendFormatsPicked(items, userId, rest);
    }
  }
}
