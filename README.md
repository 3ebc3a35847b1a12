# Playlist shuffler — a verified model of its shuffling core

The application is a small Flask web app that logs a user in to Spotify and lists
the playlists the user owns. It shuffles a chosen playlist on the server side by
issuing one "move the track at `range_start` before `insert_before`" request per
step of a Fisher–Yates style loop. Alongside it, `list_shuffler.py` holds two
list shufflers:
- an in-place Fisher–Yates shuffle;
- a slot-placement shuffle. It draws a slot for each element and falls back to
  the first empty slot when the drawn slot was used before.

This Dafny project models that core:

- `wrappers.dfy` (module `Wrappers`): the `Option` type, which stands for Python's `None`.
- `draws.dfy` (module `Draws`): the random draws. Each `randint` call is replaced
  by one entry of a `draws` sequence that the caller supplies. Predicates state the
  range each draw comes from (`Descending`, `Ascending`, `Slots`).
- `list_shuffler.dfy` (module `ListShuffler`):
  - `fisher_yates_shuffle` as a method that swaps array entries in place. It is
    proved against the specification function `Shuffled`.
  - `shuffle_list` as a method with the same nested loops and `break`. It is
    proved against `Placed`, which folds one outer iteration (`Place`) over the
    input. The state is the pair of lists `new_list` / `numbers_used` (`Placement`).
- `app.dfy` (module `App`):
  - The effect of one reorder request on the playlist (`Move`). It is shown equal
    to "remove, then insert" (`Remove`/`Insert`).
  - The call-issuing loop of `shuffle_playlist`, and a corrected variant of it
    (see Findings).
  - The owner filter and display format of the `playlists` page.

## Model

| member | source | states |
|---|---|---|
| ListShuffler.Shuffled | list_shuffler.py:5-7 | the list after the first `k` swap iterations keeps its length; FisherYatesShuffle is proved equal to it, and ShuffledIsPermutation and ShuffledSettlesSuffix state its properties |
| ListShuffler.FisherYatesShuffle | list_shuffler.py:4-9 | returns the very array it was given; the new contents are the Fisher–Yates result for the draws, a permutation of the old contents, and unchanged when the length is 0 or 1 |
| ListShuffler.ShuffledIsPermutation | list_shuffler.py:4-9 | the swap loop, for any in-range draws, yields the same multiset of elements as its input |
| ListShuffler.ShuffledSettlesSuffix | list_shuffler.py:5-7 | once the iteration for index `i` has finished, positions `i..len-1` keep their values through every later iteration |
| ListShuffler.FirstFree | list_shuffler.py:23-28 | the fallback loop's `break` index is the lowest slot holding `None`; when there is none, every slot is filled |
| ListShuffler.Place | list_shuffler.py:19-33 | one outer iteration keeps the number of slots; PlaceWritesOneSlot and PlaceNeverOverwrites state what it writes |
| ListShuffler.PlaceWritesOneSlot | list_shuffler.py:19-33 | one outer iteration writes `elem` into exactly one in-range slot and appends that slot to `numbers_used`; a slot not drawn before is the one used; it changes nothing only when a collision finds every slot filled |
| ListShuffler.Placed | list_shuffler.py:19-33 | placing the elements one by one keeps `len_arg` slots; ShuffleList is proved equal to it, and PlacedIsConsistent, PlacedIsExact and PlacedIsPermutation state its properties |
| ListShuffler.PlaceNeverOverwrites | list_shuffler.py:19-33 | while fewer than `len_arg` elements are placed, a collision always finds a free slot, a fresh draw always names an empty slot, and no filled slot is overwritten |
| ListShuffler.CollisionTakesLowestFree | list_shuffler.py:22-28 | on a collision the element goes to the lowest-indexed empty slot, and that index is appended to `numbers_used` |
| ListShuffler.PlaceKeepsConsistent | list_shuffler.py:19-33 | one outer iteration appends exactly one in-range index to `numbers_used`; every filled slot stays recorded; the slots keep holding exactly the placed elements plus `None`s |
| ListShuffler.PlacedIsConsistent | list_shuffler.py:19-33 | after placing `k` elements, `numbers_used` has `k` in-range entries, covers every filled slot, and the slots hold the placed elements plus `len_arg - k` `None`s |
| ListShuffler.PlacedIsExact | list_shuffler.py:19-33 | with no `None` in the input, `numbers_used` has no duplicates and names exactly the filled slots |
| ListShuffler.PlacedIsPermutation | list_shuffler.py:12-35 | the result is a permutation of the input; with no `None` in the input, every slot is filled and `numbers_used` is exact |
| ListShuffler.ShuffleList | list_shuffler.py:12-35 | returns a new list of the input's length, equal to the placement of the input under the draws, with the same multiset; the input array is only read; every slot is filled when the input has no `None` |
| App.Move | app.py:17-39 | one reorder keeps the length; the track at `range_start` lands at `insert_before`, or at `insert_before - 1` when it came before that position; tracks before both positions and after both positions stay where they are |
| App.MoveIsRemoveInsert | app.py:17-39 | one reorder equals removing the track at `range_start` and inserting it so that it lands before the track that was at `insert_before` |
| App.MovePermutes | app.py:119-120 | one reorder keeps the playlist's length and multiset of tracks |
| App.SelfMoveIsNoOp | app.py:119-120 | a call with `range_start == insert_before` (issued when `j == i`) leaves the playlist unchanged |
| App.ApplyAll | app.py:118-120 | the playlist after a list of reorder calls, applied in order, keeps its length; ApplyAllPermutes states that it keeps the tracks |
| App.ApplyAllPermutes | app.py:118-120 | any sequence of in-range reorders keeps the playlist's multiset of tracks |
| App.ShufflePlaylist | app.py:110-120 | with status 200: exactly `max(num_tracks - 1, 0)` calls, the `k`-th being `(num_tracks - 1 - k, draws[k])`. Every call has `0 <= insert_before <= range_start < num_tracks`. The resulting playlist is the calls applied in order and a permutation of the original. Any other status issues no call |
| App.AsWrittenLastIsFromTail | app.py:118-120 | as written, the final last track is always the old last or second-to-last track |
| App.AsWrittenMissesAnOrdering | app.py:118-120 | as written, no draws turn `[0, 1, 2]` into `[1, 2, 0]` |
| App.InsertionReachesEveryOrdering | app.py:118-120 | corrected loop: for every rearrangement `t` of `s` there are in-range draws whose calls turn `s` into `t` |
| App.ShufflePlaylistByInsertion | app.py:110-120 | corrected loop: `max(num_tracks - 1, 0)` calls `(k + 1, draws[k])`, all in range; the result is the calls applied in order and a permutation of the original; no call unless the status is 200 |
| App.Format | app.py:90-94 | `id` and `name` are copied; `image` is the first image's URL exactly when `images` is present and non-empty, otherwise `None` |
| App.DisplayFormat | app.py:89-96 | the formatted list has at most one entry per playlist, is empty when the user owns none of them and has one entry per playlist when the user owns all of them; DisplayFormatSelectsOwned gives the full characterisation |
| App.DisplayFormatSelectsOwned | app.py:89-96 | the formatted list consists of exactly the playlists whose owner id equals the user id, each formatted, in their original order |

## Left out

- HTTP traffic and JSON parsing are not modelled. This covers the playlist fetch, `/me`, `/me/playlists`, the token exchange and the PUT of `reorder_tracks`. The fetch is reduced to its status code and its track list. `reorder_tracks` is reduced to its payload (`Reorder`) plus the effect its docstring describes (`Move`). `reorder_tracks` never reads the response to its PUT, so a refused or failed move (a rate-limit reply, say) is skipped silently and the loop carries on. `after == ApplyAll(tracks, calls)` in App.ShufflePlaylist therefore describes the playlist only when every call takes effect. The list of calls and their bounds hold either way.
- The Flask routes, redirects, templates, session storage and the OAuth URL building are left out. They are web plumbing with no logic of their own.
- `randint` and the statistical quality of the shuffles are left out. The draws are supplied values, constrained only to the ranges `randint` returns.
- Status codes other than 200 are not told apart. As in the source, any of them means that no call is issued.
- `num_tracks` is taken to be the length of the fetched track list. The model does not follow a `tracks.total` that disagrees with the list.
- Self-moves are not skipped. The code issues a call even when `j == i`, and the model follows the code. `App.SelfMoveIsNoOp` shows that such a call changes nothing.
- ListShuffler.ShuffleList: the Python list is modelled as an array of `Option` values. `None` entries are modelled. With `None` entries, the result is still a permutation, but `numbers_used` may then repeat an index, so exactness is only claimed for inputs without `None`.
- ListShuffler.ShuffleList: the method does not state that its result is a fresh array. Not naming `listArg` in any `modifies` clause is what shows that the input is left untouched.
- Snapshot-based shuffling, pagination, batched moves and de-duplication do not appear in this code, so they are not modelled.

## Findings

| source | as written | input that shows it | evidently intended | confidence | as-written member | corrected member |
|---|---|---|---|---|---|---|
| app.py:118-120 | `for i in range(num_tracks - 1, 0, -1)` sends "move track `i` before `j`", which is an insertion, not the Fisher–Yates swap its comment names. Walking `i` downwards, the first call settles the last position, and it can only hold the old last or second-to-last track | playlist `[0, 1, 2]`: no draws yield `[1, 2, 0]`, so only some of the 3! orderings can occur | a shuffle that can produce every ordering: walk `i` upwards (`range(1, num_tracks)`) so that each move inserts track `i` into the already shuffled prefix | not executed | App.AsWrittenMissesAnOrdering | App.InsertionReachesEveryOrdering |
