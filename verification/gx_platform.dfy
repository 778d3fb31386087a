/** Platform pieces of the GameCube/Wii frontend (frontend/platform/platform_gx.c):
    the IOS memory patch scanner and its one active patch, the fork flags
    that decide what runs at exit, and the frontend rating. Memory is the
    byte array starting at `MEM_BASE`; hardware registers are values. */
module GxPlatform {
  import opened Machine

  // ------------------------------------------------------------ patching

  /** The scan window of `apply_patch`. */
  const MEM_BASE: nat := 0x9340_0000
  const MEM_END: nat := 0x9400_0000
  const WINDOW: nat := MEM_END - MEM_BASE

  /** The number of start positions the scan visits: `ptr` steps one byte at
      a time from `MEM_BASE` while below the unsigned `0x94000000 -
      patch_size`. */
  function Positions(patchSize: nat): (n: nat)
    ensures patchSize <= WINDOW ==> n == WINDOW - patchSize
    ensures WINDOW <= patchSize <= MEM_END ==> n == 0
  {
    var end := U32(MEM_END - patchSize);
    if end > MEM_BASE then end - MEM_BASE else 0
  }

  /** Every comparison and every write of a scan over `limit` positions stays
      inside the modelled memory. */
  predicate Fits(size: nat, oldLen: nat, patchLen: nat, offset: nat, limit: nat)
  {
    limit == 0 || (limit - 1 + oldLen <= size && limit - 1 + offset + patchLen <= size)
  }

  /** `memcmp(ptr, pat, old_size) == 0` at position `p`. */
  predicate Matches(mem: seq<nat>, p: nat, pat: seq<nat>)
  {
    p + |pat| <= |mem| && mem[p..p + |pat|] == pat
  }

  /** `patch` copied over the memory at `at`. */
  function Write(mem: seq<nat>, at: nat, patch: seq<nat>): (r: seq<nat>)
    requires at + |patch| <= |mem|
    ensures |r| == |mem|
  {
    mem[..at] + patch + mem[at + |patch|..]
  }

  /** What each byte holds after a write. */
  lemma WriteReads(mem: seq<nat>, at: nat, patch: seq<nat>)
    requires at + |patch| <= |mem|
    ensures forall i :: 0 <= i < |mem| ==>
              Write(mem, at, patch)[i] == (if at <= i < at + |patch| then patch[i - at] else mem[i])
  {
  }

  /** Byte `i` lies in the bytes written for a match at `q`. */
  predicate InWindow(q: nat, offset: nat, len: nat, i: nat)
  {
    q + offset <= i < q + offset + len
  }

  /** One position of the scan: on a match the patch is written at once, so
      later comparisons see the patched bytes. */
  function Step(mem: seq<nat>, pat: seq<nat>, patch: seq<nat>, offset: nat, p: nat): (r: seq<nat>)
    requires p + offset + |patch| <= |mem|
    ensures |r| == |mem|
  {
    if Matches(mem, p, pat) then Write(mem, p + offset, patch) else mem
  }

  /** The scan from position `p` to `limit`: the number of matches found and
      the memory left behind. */
  function Scan(mem: seq<nat>, pat: seq<nat>, patch: seq<nat>, offset: nat, p: nat, limit: nat): (r: (nat, seq<nat>))
    requires p <= limit && Fits(|mem|, |pat|, |patch|, offset, limit)
    ensures |r.1| == |mem| && r.0 <= limit - p
    decreases limit - p
  {
    if p == limit then (0, mem)
    else
      var next := Scan(Step(mem, pat, patch, offset, p), pat, patch, offset, p + 1, limit);
      (next.0 + (if Matches(mem, p, pat) then 1 else 0), next.1)
  }

  /** The scan of the first `k` positions, in the order the loop of
      `apply_patch` visits them. */
  function Forward(mem: seq<nat>, pat: seq<nat>, patch: seq<nat>, offset: nat, k: nat): (r: (nat, seq<nat>))
    requires Fits(|mem|, |pat|, |patch|, offset, k)
    ensures |r.1| == |mem|
  {
    if k == 0 then (0, mem)
    else
      var prev := Forward(mem, pat, patch, offset, k - 1);
      (prev.0 + (if Matches(prev.1, k - 1, pat) then 1 else 0), Step(prev.1, pat, patch, offset, k - 1))
  }

  /** Scanning the first `k` positions and then the rest is the whole scan. */
  lemma {:induction false} ForwardThenScan(mem: seq<nat>, pat: seq<nat>, patch: seq<nat>, offset: nat, k: nat, limit: nat)
    requires k <= limit && Fits(|mem|, |pat|, |patch|, offset, limit)
    ensures var f := Forward(mem, pat, patch, offset, k);
            var rest := Scan(f.1, pat, patch, offset, k, limit);
            Scan(mem, pat, patch, offset, 0, limit).0 == f.0 + rest.0 &&
            Scan(mem, pat, patch, offset, 0, limit).1 == rest.1
  {
    if k > 0 {
      ForwardThenScan(mem, pat, patch, offset, k - 1, limit);
      var f := Forward(mem, pat, patch, offset, k - 1);
      ScanStep(f.1, pat, patch, offset, k - 1, limit);
    }
  }

  /** `apply_patch`: compares every position of the window with `pat` and,
      on a match, copies `patch` to `patch_offset` bytes past it; returns
      the number of matches. */
  method ApplyPatch(mem: seq<nat>, pat: seq<nat>, patch: seq<nat>, offset: nat) returns (found: nat, out: seq<nat>)
    requires Fits(|mem|, |pat|, |patch|, offset, Positions(|patch|))
    ensures (found, out) == Scan(mem, pat, patch, offset, 0, Positions(|patch|))
    ensures |out| == |mem| && found <= Positions(|patch|)
    ensures found == 0 ==> out == mem
  {
    var limit := Positions(|patch|);
    found, out := ScanLoop(mem, pat, patch, offset, limit);
    ForwardThenScan(mem, pat, patch, offset, limit, limit);
    ScanWithoutMatchKeeps(mem, pat, patch, offset, 0, limit);
  }

  /** The loop of `apply_patch` over the first `limit` positions. */
  method ScanLoop(mem: seq<nat>, pat: seq<nat>, patch: seq<nat>, offset: nat, limit: nat) returns (found: nat, out: seq<nat>)
    requires Fits(|mem|, |pat|, |patch|, offset, limit)
    ensures (found, out) == Forward(mem, pat, patch, offset, limit)
  {
    var p := 0;
    found := 0;
    out := mem;
    while p < limit
      invariant p <= limit && (found, out) == Forward(mem, pat, patch, offset, p)
      decreases limit - p
    {
      if Matches(out, p, pat) {
        found := found + 1;
        out := WritePatch(out, p + offset, patch);
      }
      p := p + 1;
    }
  }

  /** A scan that finds nothing writes nothing. */
  lemma {:induction false} ScanWithoutMatchKeeps(mem: seq<nat>, pat: seq<nat>, patch: seq<nat>, offset: nat, p: nat, limit: nat)
    requires p <= limit && Fits(|mem|, |pat|, |patch|, offset, limit)
    ensures Scan(mem, pat, patch, offset, p, limit).0 == 0 ==> Scan(mem, pat, patch, offset, p, limit).1 == mem
    decreases limit - p
  {
    if p < limit {
      var next := Step(mem, pat, patch, offset, p);
      ScanWithoutMatchKeeps(next, pat, patch, offset, p + 1, limit);
      if !Matches(mem, p, pat) {
        assert next == mem;
      }
    }
  }

  /** One position of the scan, unfolded. */
  lemma ScanStep(mem: seq<nat>, pat: seq<nat>, patch: seq<nat>, offset: nat, p: nat, limit: nat)
    requires p < limit && Fits(|mem|, |pat|, |patch|, offset, limit)
    ensures var next := Scan(Step(mem, pat, patch, offset, p), pat, patch, offset, p + 1, limit);
            Scan(mem, pat, patch, offset, p, limit) ==
              (next.0 + (if Matches(mem, p, pat) then 1 else 0), next.1)
  {
  }

  /** The copy loop of `apply_patch`: `patch` written byte by byte at `at`. */
  method WritePatch(mem: seq<nat>, at: nat, patch: seq<nat>) returns (out: seq<nat>)
    requires at + |patch| <= |mem|
    ensures out == Write(mem, at, patch)
  {
    out := mem;
    var i := 0;
    while i < |patch|
      invariant i <= |patch| && |out| == |mem|
      invariant forall k :: 0 <= k < |out| ==>
                  out[k] == (if at <= k < at + i then patch[k - at] else mem[k])
    {
      out := out[at + i := patch[i]];
      i := i + 1;
    }
  }

  /** Every byte the scan changes lies in the bytes written for some
      position it visited: the rest of memory is left as it was. */
  lemma {:induction false} ScanWritesOnlyWindows(mem: seq<nat>, pat: seq<nat>, patch: seq<nat>, offset: nat,
                                                 p: nat, limit: nat, i: nat)
    requires p <= limit && Fits(|mem|, |pat|, |patch|, offset, limit) && i < |mem|
    requires Scan(mem, pat, patch, offset, p, limit).1[i] != mem[i]
    ensures exists q :: p <= q < limit && InWindow(q, offset, |patch|, i)
    decreases limit - p
  {
    var step := Step(mem, pat, patch, offset, p);
    if step[i] != mem[i] {
      assert InWindow(p, offset, |patch|, i);
    } else {
      ScanWritesOnlyWindows(step, pat, patch, offset, p + 1, limit, i);
    }
  }

  /** The number of positions in `[p, limit)` where `pat` is present. */
  function CountFrom(mem: seq<nat>, pat: seq<nat>, p: nat, limit: nat): (n: nat)
    requires p <= limit
    ensures n <= limit - p
    decreases limit - p
  {
    if p == limit then 0
    else CountFrom(mem, pat, p + 1, limit) + (if Matches(mem, p, pat) then 1 else 0)
  }

  /** A pattern and patch of equal length whose first byte occurs nowhere
      else in either, the patch keeping that first byte: no two occurrences
      can overlap and patched bytes never start a new one. */
  predicate Anchored(pat: seq<nat>, patch: seq<nat>)
  {
    |pat| == |patch| > 0 && patch[0] == pat[0] &&
    forall k :: 0 < k < |pat| ==> pat[k] != pat[0] && patch[k] != pat[0]
  }

  lemma MatchStartsWithFirst(mem: seq<nat>, q: nat, pat: seq<nat>)
    requires Matches(mem, q, pat) && |pat| > 0
    ensures mem[q] == pat[0]
  {
    assert mem[q..q + |pat|][0] == mem[q];
  }

  /** Patching one occurrence of an anchored pattern leaves every later
      position matching exactly as before. */
  lemma WriteKeepsLaterMatches(mem: seq<nat>, pat: seq<nat>, patch: seq<nat>, p: nat, q: nat)
    requires Anchored(pat, patch) && Matches(mem, p, pat) && p < q
    ensures Matches(Write(mem, p, patch), q, pat) <==> Matches(mem, q, pat)
  {
    var w := Write(mem, p, patch);
    var n := |pat|;
    if q < p + n {
      assert mem[q] == mem[p..p + n][q - p] == pat[q - p];
      if Matches(mem, q, pat) { MatchStartsWithFirst(mem, q, pat); }
      if Matches(w, q, pat) { MatchStartsWithFirst(w, q, pat); }
    } else if q + n <= |mem| {
      assert w[q..q + n] == mem[q..q + n];
    }
  }

  /** Memories that match at the same positions give the same count. */
  lemma {:induction false} CountAgrees(m1: seq<nat>, m2: seq<nat>, pat: seq<nat>, p: nat, limit: nat)
    requires p <= limit
    requires forall q :: p <= q < limit ==> (Matches(m1, q, pat) <==> Matches(m2, q, pat))
    ensures CountFrom(m1, pat, p, limit) == CountFrom(m2, pat, p, limit)
    decreases limit - p
  {
    if p < limit {
      CountAgrees(m1, m2, pat, p + 1, limit);
    }
  }

  /** For an anchored pattern patched in place, the scan counts exactly the
      occurrences the memory held before the scan. */
  lemma {:induction false} ScanCountsOccurrences(mem: seq<nat>, pat: seq<nat>, patch: seq<nat>, p: nat, limit: nat)
    requires Anchored(pat, patch) && p <= limit && Fits(|mem|, |pat|, |patch|, 0, limit)
    ensures Scan(mem, pat, patch, 0, p, limit).0 == CountFrom(mem, pat, p, limit)
    decreases limit - p
  {
    if p < limit {
      var next := Step(mem, pat, patch, 0, p);
      ScanCountsOccurrences(next, pat, patch, p + 1, limit);
      if Matches(mem, p, pat) {
        forall q | p + 1 <= q < limit
          ensures Matches(next, q, pat) <==> Matches(mem, q, pat)
        {
          WriteKeepsLaterMatches(mem, pat, patch, p, q);
        }
        CountAgrees(next, mem, pat, p + 1, limit);
      }
    }
  }

  /** A scan of an anchored pattern whose patch differs from it leaves no
      occurrence behind it: positions already passed stay clear. */
  lemma {:induction false} ScanLeavesNoMatch(mem: seq<nat>, pat: seq<nat>, patch: seq<nat>, p: nat, limit: nat)
    requires Anchored(pat, patch) && patch != pat && p <= limit && Fits(|mem|, |pat|, |patch|, 0, limit)
    requires forall q :: 0 <= q < p ==> !Matches(mem, q, pat)
    ensures forall q :: 0 <= q < limit ==> !Matches(Scan(mem, pat, patch, 0, p, limit).1, q, pat)
    decreases limit - p
  {
    if p < limit {
      var next := Step(mem, pat, patch, 0, p);
      forall q | 0 <= q <= p
        ensures !Matches(next, q, pat)
      {
        StepClearsBehind(mem, pat, patch, p, q);
      }
      ScanLeavesNoMatch(next, pat, patch, p + 1, limit);
    }
  }

  lemma StepClearsBehind(mem: seq<nat>, pat: seq<nat>, patch: seq<nat>, p: nat, q: nat)
    requires Anchored(pat, patch) && patch != pat && q <= p && p + |patch| <= |mem|
    requires forall j :: 0 <= j < p ==> !Matches(mem, j, pat)
    ensures !Matches(Step(mem, pat, patch, 0, p), q, pat)
  {
    var n := |pat|;
    if Matches(mem, p, pat) {
      var w := Write(mem, p, patch);
      if q == p {
        assert w[p..p + n] == patch;
      } else if q + n <= p {
        if q + n <= |mem| {
          assert w[q..q + n] == mem[q..q + n];
          assert !Matches(mem, q, pat);
        }
      } else if Matches(w, q, pat) {
        assert w[p] == pat[0];
        assert w[q..q + n][p - q] == w[p];
      }
    }
  }

  /** The one patch `IOSPATCH_Apply` applies: ISFS permissions. */
  const ISFS_OLD: seq<nat> := [0x42, 0x8B, 0xD0, 0x01, 0x25, 0x66]
  const ISFS_PATCH: seq<nat> := [0x42, 0x8B, 0xE0, 0x01, 0x25, 0x66]

  lemma IsfsAnchored()
    ensures Anchored(ISFS_OLD, ISFS_PATCH) && ISFS_PATCH != ISFS_OLD
  {
    assert ISFS_PATCH[2] != ISFS_OLD[2];
  }

  /** The AHBPROT register value that grants access to the hardware. */
  const AHBPROT_OPEN: nat := 0xFFFF_FFFF

  /** `IOSPATCH_Apply`: with hardware access, clears the upper half of the
      MEM2 protection register and applies the ISFS permissions patch,
      returning its match count; without, changes nothing and returns 0. */
  method IosPatchApply(ahbprot: nat, mem2Prot: nat, mem: seq<nat>) returns (count: nat, out: seq<nat>, prot: nat)
    requires |mem| >= WINDOW
    ensures ahbprot != AHBPROT_OPEN ==> count == 0 && out == mem && prot == mem2Prot
    ensures ahbprot == AHBPROT_OPEN ==> prot == U32(mem2Prot) % 0x1_0000
    ensures ahbprot == AHBPROT_OPEN ==>
              count == CountFrom(mem, ISFS_OLD, 0, Positions(|ISFS_PATCH|)) &&
              forall q :: 0 <= q < Positions(|ISFS_PATCH|) ==> !Matches(out, q, ISFS_OLD)
  {
    count, out, prot := 0, mem, mem2Prot;
    if ahbprot == AHBPROT_OPEN {
      prot := U32(mem2Prot) % 0x1_0000;
      var found;
      found, out := ApplyPatch(mem, ISFS_OLD, ISFS_PATCH, 0);
      count := count + found;
      IsfsAnchored();
      ScanCountsOccurrences(mem, ISFS_OLD, ISFS_PATCH, 0, Positions(6));
      ScanLeavesNoMatch(mem, ISFS_OLD, ISFS_PATCH, 0, Positions(6));
    }
  }

  /** Applying the ISFS patch a second time finds nothing. */
  lemma IsfsPatchIdempotent(mem: seq<nat>)
    requires |mem| >= WINDOW
    ensures var once := Scan(mem, ISFS_OLD, ISFS_PATCH, 0, 0, Positions(6));
            Scan(once.1, ISFS_OLD, ISFS_PATCH, 0, 0, Positions(6)) == (0, once.1)
  {
    var limit := Positions(6);
    var once := Scan(mem, ISFS_OLD, ISFS_PATCH, 0, 0, limit);
    IsfsAnchored();
    ScanLeavesNoMatch(mem, ISFS_OLD, ISFS_PATCH, 0, limit);
    ScanCountsOccurrences(once.1, ISFS_OLD, ISFS_PATCH, 0, limit);
    NoMatchCountsZero(once.1, ISFS_OLD, 0, limit);
    ScanWithoutMatchKeeps(once.1, ISFS_OLD, ISFS_PATCH, 0, 0, limit);
  }

  lemma {:induction false} NoMatchCountsZero(mem: seq<nat>, pat: seq<nat>, p: nat, limit: nat)
    requires p <= limit && forall q :: p <= q < limit ==> !Matches(mem, q, pat)
    ensures CountFrom(mem, pat, p, limit) == 0
    decreases limit - p
  {
    if p < limit {
      NoMatchCountsZero(mem, pat, p + 1, limit);
    }
  }

  // ---------------------------------------------------------- fork, rating

  /** The exit-spawn flags `frontend_gx_set_fork` records. */
  datatype Fork = Fork(exitSpawn: bool, startGame: bool)

  function SetFork(exitspawn: bool, startGame: bool): (f: Fork)
    ensures f.exitSpawn == exitspawn && f.startGame == startGame
  {
    Fork(exitspawn, startGame)
  }

  /** One call of `frontend_gx_exec`. */
  datatype Exec = Exec(path: string, loadGame: bool)

  /** libretro-common's `fill_pathname_join`: a slash goes between a
      non-empty directory not ending in one and the name. */
  function PathJoin(dir: string, name: string): (r: string)
    ensures |r| >= |dir| + |name|
    ensures r == dir + r[|dir|..] && r[|r| - |name|..] == name
    ensures |dir| > 0 ==> r[|dir|..] == (if dir[|dir| - 1] == '/' then "" else "/") + name
  {
    if |dir| > 0 && dir[|dir| - 1] != '/' then dir + "/" + name else dir + name
  }

  /** `frontend_gx_exitspawn` on the Wii: nothing without the exit-spawn
      flag; otherwise the core path is started, and should that return, the
      loader `boot.dol` in the core directory, both with the recorded game
      flag. An exec that succeeds does not return, so the list is the order
      of attempts. */
  function ExitSpawn(f: Fork, corePath: string, coreDir: string): (r: seq<Exec>)
    ensures !f.exitSpawn <==> r == []
    ensures f.exitSpawn ==> |r| == 2 && r[0].path == corePath
    ensures forall i :: 0 <= i < |r| ==> r[i].loadGame == f.startGame
    ensures |r| == 2 ==> |r[1].path| >= 8 && r[1].path[|r[1].path| - 8..] == "boot.dol" && coreDir <= r[1].path
  {
    if !f.exitSpawn then []
    else
      var loader := PathJoin(coreDir, "boot.dol");
      assert loader == coreDir + loader[|coreDir|..];
      [Exec(corePath, f.startGame), Exec(loader, f.startGame)]
  }

  /** The flags passed to `set_fork` decide whether exit spawns anything and
      whether every spawn loads the game. */
  lemma ForkDecidesSpawn(exitspawn: bool, startGame: bool, corePath: string, coreDir: string)
    ensures var r := ExitSpawn(SetFork(exitspawn, startGame), corePath, coreDir);
            (r != [] <==> exitspawn) &&
            (r != [] ==> r[0] == Exec(corePath, startGame) && r[1].loadGame == startGame)
  {
  }

  datatype Console = GameCube | Wii

  /** `frontend_gx_get_rating`: the Wii build rates higher. */
  function Rating(c: Console): (r: int)
    ensures c.Wii? <==> r == 8
    ensures c.GameCube? <==> r == 6
  {
    if c.Wii? then 8 else 6
  }
}
