/**
 * `MusicDB`: the catalogue of tracks and playlists, and the two index
 * allocators. The track allocator lives in `addFile`/`removeFile`; the
 * playlist allocator is driven by `create_playlist` (see `Commands`).
 *
 * Paths are the relative paths `file.relativeTo(musicFolder).path` that the
 * source computes; the folder itself is not modelled.
 */
module Library {
  import opened Options
  import opened Records
  import opened Collections

  // ---------------------------------------------------------------------
  // The track allocator, as functions on the state it touches

  /** The indices in use. */
  function Indices(files: set<MusicFile>): set<int> {
    set f | f in files :: f.index
  }

  /** The relative paths in use. */
  function Paths(files: set<MusicFile>): set<string> {
    set f | f in files :: f.path
  }

  /** No two records share an index. */
  ghost predicate UniqueIndices(files: set<MusicFile>) {
    forall f, g :: f in files && g in files && f.index == g.index ==> f == g
  }

  /**
   * The allocator invariant: indices are positive and unique, and `next` is
   * the smallest positive integer no track uses.
   */
  ghost predicate AllocatorOk(files: set<MusicFile>, next: int) {
    && UniqueIndices(files)
    && (forall f :: f in files ==> f.index >= 1)
    && next >= 1
    && next !in Indices(files)
    && (forall k :: 1 <= k < next ==> k in Indices(files))
  }

  /** The elements of `used` at or above `n`: what the scan has still to pass. */
  function AtLeast(used: set<int>, n: int): set<int> {
    set x | x in used && x >= n
  }

  lemma AtLeastShrinks(used: set<int>, n: int)
    requires n in used
    ensures |AtLeast(used, n + 1)| < |AtLeast(used, n)|
  {
    assert AtLeast(used, n) == AtLeast(used, n + 1) + {n};
  }

  /** The first integer at or above `n` that is not in `used`: the upward scan. */
  function ScanFrom(used: set<int>, n: int): (r: int)
    ensures r >= n && r !in used
    ensures forall k :: n <= k < r ==> k in used
    decreases |AtLeast(used, n)|
  {
    if n !in used then n
    else
      AtLeastShrinks(used, n);
      ScanFrom(used, n + 1)
  }

  /** The counter after `addFile` has inserted `added` into `files`. */
  function NextAfterAdd(files: set<MusicFile>, next: int): int {
    if |files| == next then next + 1 else ScanFrom(Indices(files), next + 1)
  }

  /** The record `addFile` creates for `path`. */
  function NewTrack(next: int, path: string): (m: MusicFile)
    ensures m.index == next && m.artist == None && m.name == None && m.path == path
  {
    MusicFile(next, None, None, path)
  }

  /** The state after `addFile(path)`. */
  function AddSpec(files: set<MusicFile>, next: int, path: string): (set<MusicFile>, int) {
    var files' := files + {NewTrack(next, path)};
    (files', NextAfterAdd(files', next))
  }

  /** The state after `removeFile(f)`. */
  function RemoveSpec(files: set<MusicFile>, next: int, f: MusicFile): (set<MusicFile>, int) {
    if f in files then (files - {f}, if f.index < next then f.index else next) else (files, next)
  }

  /** The empty store with the counter's default is consistent. */
  lemma FreshStoreOk()
    ensures AllocatorOk({}, 1)
  {
  }

  /** The integers `1..n-1`. */
  function Below(n: int): (r: set<int>)
    ensures forall k :: k in r <==> 1 <= k < n
    ensures n >= 1 ==> |r| == n - 1
    decreases n
  {
    if n <= 1 then {} else Below(n - 1) + {n - 1}
  }

  /** With unique indices there are as many indices as records. */
  lemma {:induction false} IndicesSize(files: set<MusicFile>)
    requires UniqueIndices(files)
    ensures |Indices(files)| == |files|
    decreases |files|
  {
    if files != {} {
      var f := Pick(files);
      var rest := files - {f};
      IndicesSize(rest);
      assert Indices(files) == Indices(rest) + {f.index};
      assert f.index !in Indices(rest);
    } else {
      assert Indices(files) == {};
    }
  }

  lemma SubsetSize<T>(a: set<T>, b: set<T>)
    requires a <= b
    ensures |a| <= |b|
  {
    assert b == a + (b - a);
  }

  /**
   * Under the invariant, a track with an index above the counter makes the
   * store hold at least `next` tracks.
   */
  lemma {:induction false} IndexAboveMeansLarge(files: set<MusicFile>, next: int, x: int)
    requires AllocatorOk(files, next)
    requires x in Indices(files) && x > next
    ensures |files| >= next
  {
    var low := Below(next);
    assert low + {x} <= Indices(files);
    assert x !in low;
    SubsetSize(low + {x}, Indices(files));
    IndicesSize(files);
  }

  /**
   * `addFile` keeps the invariant, hands out an index nobody uses, and moves
   * the counter strictly above it; this covers both the increment branch
   * and the scan.
   */
  lemma {:induction false} AddKeepsAllocator(files: set<MusicFile>, next: int, path: string)
    requires AllocatorOk(files, next)
    ensures next !in Indices(files)
    ensures AllocatorOk(AddSpec(files, next, path).0, AddSpec(files, next, path).1)
    ensures AddSpec(files, next, path).1 > next
  {
    var added := NewTrack(next, path);
    var files' := files + {added};
    assert added !in files;
    assert Indices(files') == Indices(files) + {next};
    if |files'| == next {
      if next + 1 in Indices(files) {
        IndexAboveMeansLarge(files, next, next + 1);
        assert false;
      }
    }
  }

  /** `removeFile` keeps the invariant, whether or not the record is present. */
  lemma RemoveKeepsAllocator(files: set<MusicFile>, next: int, f: MusicFile)
    requires AllocatorOk(files, next)
    ensures AllocatorOk(RemoveSpec(files, next, f).0, RemoveSpec(files, next, f).1)
  {
    if f in files {
      var files' := files - {f};
      assert Indices(files') == Indices(files) - {f.index};
    }
  }

  /** One call of `addFile` or `removeFile`. */
  datatype Op = Add(path: string) | Remove(file: MusicFile)

  function Step(state: (set<MusicFile>, int), op: Op): (set<MusicFile>, int) {
    match op
    case Add(path) => AddSpec(state.0, state.1, path)
    case Remove(f) => RemoveSpec(state.0, state.1, f)
  }

  /** Every `Add` in `ops`, run from `state`, hands out an index not in use. */
  ghost predicate NeverReuses(state: (set<MusicFile>, int), ops: seq<Op>)
    decreases |ops|
  {
    ops == []
    || ((ops[0].Add? ==> state.1 !in Indices(state.0)) && NeverReuses(Step(state, ops[0]), ops[1..]))
  }

  lemma {:induction false} AllocatorNeverReuses(state: (set<MusicFile>, int), ops: seq<Op>)
    requires AllocatorOk(state.0, state.1)
    ensures NeverReuses(state, ops)
    decreases |ops|
  {
    if ops != [] {
      match ops[0] {
        case Add(path) => AddKeepsAllocator(state.0, state.1, path);
        case Remove(f) => RemoveKeepsAllocator(state.0, state.1, f);
      }
      AllocatorNeverReuses(Step(state, ops[0]), ops[1..]);
    }
  }

  /** From the empty store with counter 1, no sequence of calls reuses an index. */
  lemma FreshStoreNeverReuses(ops: seq<Op>)
    ensures NeverReuses(({}, 1), ops)
  {
    AllocatorNeverReuses(({}, 1), ops);
  }

  // ---------------------------------------------------------------------
  // populateDB, as a function of the listing

  /** The listed paths that no track had before the call, in listing order. */
  function NewPaths(listing: seq<string>, known: set<string>): (r: seq<string>)
    ensures |r| <= |listing|
    ensures forall j :: 0 <= j < |r| ==> r[j] !in known && r[j] in listing
  {
    if listing == [] then []
    else (if listing[0] in known then [] else [listing[0]]) + NewPaths(listing[1..], known)
  }

  /** Every listed path that no track had is among the new paths: `NewPaths` drops nothing new. */
  lemma {:induction false} NewPathsComplete(listing: seq<string>, known: set<string>)
    ensures forall p :: p in listing && p !in known ==> p in NewPaths(listing, known)
  {
    if listing != [] {
      NewPathsComplete(listing[1..], known);
      forall p | p in listing && p !in known
        ensures p in NewPaths(listing, known)
      {
        if p != listing[0] {
          assert p in listing[1..];
        }
      }
    }
  }

  /** Adds each path in turn, as `forEach { addFile(it) }` does. */
  function AddAll(files: set<MusicFile>, next: int, paths: seq<string>): (set<MusicFile>, int)
    decreases |paths|
  {
    if paths == [] then (files, next)
    else
      var s := AddSpec(files, next, paths[0]);
      AddAll(s.0, s.1, paths[1..])
  }

  lemma AddAllStep(files: set<MusicFile>, next: int, listing: seq<string>, known: set<string>)
    requires listing != []
    ensures AddAll(files, next, NewPaths(listing, known))
      == if listing[0] in known then AddAll(files, next, NewPaths(listing[1..], known))
         else AddAll(AddSpec(files, next, listing[0]).0, AddSpec(files, next, listing[0]).1, NewPaths(listing[1..], known))
  {
    if listing[0] !in known {
      assert NewPaths(listing, known) == [listing[0]] + NewPaths(listing[1..], known);
      assert NewPaths(listing, known)[1..] == NewPaths(listing[1..], known);
    } else {
      assert NewPaths(listing, known) == NewPaths(listing[1..], known);
    }
  }

  /**
   * `populateDB` leaves every existing track in place and adds exactly one
   * new track, with no artist or name, for each new path.
   */
  lemma {:induction false} AddAllAddsOnePerPath(files: set<MusicFile>, next: int, paths: seq<string>)
    requires AllocatorOk(files, next)
    ensures var (files', next') := AddAll(files, next, paths);
      && AllocatorOk(files', next')
      && files <= files'
      && |files'| == |files| + |paths|
      && (forall m :: m in files' - files ==> m.artist == None && m.name == None && m.path in paths)
      && (forall p :: p in paths ==> exists m :: m in files' - files && m.path == p)
    decreases |paths|
  {
    if paths != [] {
      var (f1, n1) := AddSpec(files, next, paths[0]);
      AddKeepsAllocator(files, next, paths[0]);
      assert NewTrack(next, paths[0]) !in files;
      AddAllAddsOnePerPath(f1, n1, paths[1..]);
      var (files', next') := AddAll(f1, n1, paths[1..]);
      assert NewTrack(next, paths[0]) in files' - files;
      forall p | p in paths
        ensures exists m :: m in files' - files && m.path == p
      {
        if p != paths[0] {
          assert p in paths[1..];
        }
      }
    }
  }

  /** The allocator half of `AddAllAddsOnePerPath`, for callers that need only that. */
  lemma AddAllKeepsAllocator(files: set<MusicFile>, next: int, paths: seq<string>)
    requires AllocatorOk(files, next)
    ensures AllocatorOk(AddAll(files, next, paths).0, AddAll(files, next, paths).1)
  {
    AddAllAddsOnePerPath(files, next, paths);
  }

  // ---------------------------------------------------------------------
  // The store

  /** Playlists are keyed by their index, and the keys are exactly `1..next-1`. */
  ghost predicate PlaylistsOk(lists: map<int, Playlist>, next: int) {
    && next >= 1
    && (forall k :: k in lists <==> 1 <= k < next)
    && (forall k :: k in lists ==> lists[k].index == k)
  }

  /**
   * Under `PlaylistsOk` no two entries are `equals`, and a playlist made at
   * `next` equals none of them: holding the hash set as a map from index
   * drops no element, and adding a new playlist is never a no-op.
   */
  lemma PlaylistsDistinct(lists: map<int, Playlist>, next: int, name: string)
    requires PlaylistsOk(lists, next)
    ensures forall i, j | i in lists && j in lists && i != j :: !lists[i].Equals(lists[j])
    ensures forall k | k in lists :: !lists[k].Equals(NewPlaylist(next, name))
  {
  }

  /** The `while (set[next] != null) next++` loop of `addFile`. */
  method Scan(used: set<int>, start: int) returns (next: int)
    ensures next == ScanFrom(used, start)
  {
    next := start;
    while next in used
      invariant ScanFrom(used, next) == ScanFrom(used, start)
      decreases |AtLeast(used, next)|
    {
      AtLeastShrinks(used, next);
      next := next + 1;
    }
  }

  class MusicDB {
    /** The persisted `music` hash set. */
    var musicList: set<MusicFile>
    /**
     * The persisted `playlists` hash set. Its equality is on index and name,
     * and indices are unique, so it is held as a map from index.
     */
    var playlists: map<int, Playlist>
    /** The `index` and `plIndex` atomic counters. */
    var nextIndex: int
    var nextPLIndex: int

    ghost predicate Valid()
      reads this
    {
      AllocatorOk(musicList, nextIndex) && PlaylistsOk(playlists, nextPLIndex)
    }

    /**
     * Opens the store with the values the database file holds (for a new
     * file: no tracks, no playlists, both counters 1) and runs `populateDB`
     * over the relative paths of the music folder's listing.
     */
    constructor (music: set<MusicFile>, lists: map<int, Playlist>, index: int, plIndex: int, listing: seq<string>)
      ensures (musicList, nextIndex) == AddAll(music, index, NewPaths(listing, Paths(music)))
      ensures playlists == lists && nextPLIndex == plIndex
      ensures AllocatorOk(music, index) && PlaylistsOk(lists, plIndex) ==> Valid()
    {
      musicList := music;
      playlists := lists;
      nextIndex := index;
      nextPLIndex := plIndex;
      new;
      PopulateDB(listing);
    }

    /**
     * `addFile`: the new record takes the counter's value; the counter then
     * moves on by one when the store's size equals it, and otherwise to the
     * first index above it that no track uses.
     */
    method AddFile(path: string) returns (added: MusicFile)
      modifies this
      ensures added == NewTrack(old(nextIndex), path)
      ensures (musicList, nextIndex) == AddSpec(old(musicList), old(nextIndex), path)
      ensures playlists == old(playlists) && nextPLIndex == old(nextPLIndex)
      ensures old(Valid()) ==> Valid() && added.index !in Indices(old(musicList)) && nextIndex > added.index
    {
      if Valid() {
        AddKeepsAllocator(musicList, nextIndex, path);
      }
      added := MusicFile(nextIndex, None, None, path);
      musicList := musicList + {added};
      if |musicList| == nextIndex {
        nextIndex := nextIndex + 1;
      } else {
        nextIndex := Scan(Indices(musicList), nextIndex + 1);
      }
    }

    /**
     * `removeFile`: a record in the store is removed and the counter drops to
     * its index if that is lower; any other record changes nothing.
     */
    method RemoveFile(file: MusicFile)
      modifies this
      ensures (musicList, nextIndex) == RemoveSpec(old(musicList), old(nextIndex), file)
      ensures file !in old(musicList) ==> musicList == old(musicList) && nextIndex == old(nextIndex)
      ensures file in old(musicList) ==> musicList == old(musicList) - {file}
      ensures playlists == old(playlists) && nextPLIndex == old(nextPLIndex)
      ensures old(Valid()) ==> Valid()
    {
      if old(Valid()) {
        RemoveKeepsAllocator(musicList, nextIndex, file);
      }
      if file in musicList {
        musicList := musicList - {file};
        nextIndex := if file.index < nextIndex then file.index else nextIndex;
      }
    }

    /**
     * `populateDB`: every listed path that no track had when the call began
     * is added, in listing order.
     */
    method PopulateDB(listing: seq<string>)
      modifies this
      ensures (musicList, nextIndex) == AddAll(old(musicList), old(nextIndex), NewPaths(listing, Paths(old(musicList))))
      ensures playlists == old(playlists) && nextPLIndex == old(nextPLIndex)
      ensures old(Valid()) ==> Valid()
    {
      var known := Paths(musicList);
      ghost var target := AddAll(musicList, nextIndex, NewPaths(listing, known));
      if old(Valid()) {
        AddAllKeepsAllocator(musicList, nextIndex, NewPaths(listing, known));
      }
      var i := 0;
      while i < |listing|
        invariant 0 <= i <= |listing|
        invariant AddAll(musicList, nextIndex, NewPaths(listing[i..], known)) == target
        invariant playlists == old(playlists) && nextPLIndex == old(nextPLIndex)
      {
        AddAllStep(musicList, nextIndex, listing[i..], known);
        assert listing[i..][1..] == listing[i + 1..];
        if listing[i] !in known {
          var _ := AddFile(listing[i]);
        }
        i := i + 1;
      }
      assert NewPaths(listing[i..], known) == [];
      assert (musicList, nextIndex) == target;
    }

    /**
     * `findIndex`: a record with index `i`, if any; under the invariant it is
     * the only one.
     */
    method FindIndex(i: int) returns (r: Option<MusicFile>)
      ensures r.Some? ==> r.value in musicList && r.value.index == i
      ensures r.None? <==> i !in Indices(musicList)
      ensures Valid() ==> forall f :: f in musicList && f.index == i ==> r == Some(f)
    {
      if i in Indices(musicList) {
        var f :| f in musicList && f.index == i;
        r := Some(f);
      } else {
        r := None;
      }
    }
  }
}
