/**
 * The MatchFinder of wikilator.cpp: a 128 MiB circular window, a table of
 * hash heads keyed by the next four input bytes, and a chain table that is
 * zeroed once and never written again.
 *
 * Masks with window_mask = WINDOW_SIZE - 1 and HASH_MASK = HASH_SIZE - 1 are
 * written as `%` (Words.AndLowMask shows `x & (2^k - 1) == x % 2^k`).
 */
module Matching {
  import opened Words

  const WINDOW_SIZE: nat := 0x800_0000   // 1 << 27
  const HASH_SIZE: nat := 0x800_0000     // 1 << HASH_BITS, HASH_BITS = 27
  /** The most chain candidates one find_match visits. */
  const CHAIN_LIMIT: nat := 32
  const GOLDEN: nat := 0x9E3779B1

  /** The unaligned `*(uint32_t*)(data + pos)`, read little-endian. */
  function Load32(data: seq<byte>, pos: nat): (r: nat)
    requires pos + 4 <= |data|
    ensures r < TWO32
    ensures r % 256 == data[pos]
  {
    data[pos] as int + 0x100 * data[pos + 1] as int + 0x1_0000 * data[pos + 2] as int
      + 0x100_0000 * data[pos + 3] as int
  }

  /** `(load * 0x9E3779B1) & HASH_MASK`, the product on uint32. */
  function HeadSlot(data: seq<byte>, pos: nat): (h: nat)
    requires pos + 4 <= |data|
    ensures h < HASH_SIZE
  {
    ((Load32(data, pos) * GOLDEN) % TWO32) % HASH_SIZE
  }

  /** The first len bytes at data[pos..] equal the window bytes from candidate position cand on. */
  ghost predicate Agree(data: seq<byte>, pos: nat, w: seq<byte>, cand: nat, len: nat)
    requires pos + len <= |data| && |w| == WINDOW_SIZE
  {
    forall i :: pos <= i < pos + len ==> data[i] == w[(cand + (i - pos)) % WINDOW_SIZE]
  }

  /** The length the comparison loop reaches when it has already matched len bytes. */
  function MatchFrom(data: seq<byte>, pos: nat, maxLen: nat, w: seq<byte>, cand: nat, len: nat): (r: nat)
    requires pos + maxLen <= |data| && |w| == WINDOW_SIZE
    requires len <= maxLen && Agree(data, pos, w, cand, len)
    ensures len <= r <= maxLen
    ensures Agree(data, pos, w, cand, r)
    ensures r < maxLen ==> data[pos + r] != w[(cand + r) % WINDOW_SIZE]
    decreases maxLen - len
  {
    if len < maxLen && data[pos + len] == w[(cand + len) % WINDOW_SIZE] then
      MatchFrom(data, pos, maxLen, w, cand, len + 1)
    else
      len
  }

  /**
   * The length of the match of data[pos..] against the window at cand: the
   * longest agreeing prefix, cut at maxLen.
   */
  function MatchLength(data: seq<byte>, pos: nat, maxLen: nat, w: seq<byte>, cand: nat): (r: nat)
    requires pos + maxLen <= |data| && |w| == WINDOW_SIZE
    ensures r <= maxLen && Agree(data, pos, w, cand, r)
    ensures r < maxLen ==> data[pos + r] != w[(cand + r) % WINDOW_SIZE]
  {
    MatchFrom(data, pos, maxLen, w, cand, 0)
  }

  /**
   * The candidates the chain walk visits from cur: each non-zero candidate
   * is followed by prev[candidate & window_mask], at most budget of them, and
   * the walk ends at the first 0.
   */
  function Chain(cur: nat, prev: seq<nat>, budget: nat): (c: seq<nat>)
    requires |prev| == WINDOW_SIZE
    ensures |c| <= budget
    ensures forall i :: 0 <= i < |c| ==> c[i] != 0
    ensures cur != 0 && budget > 0 ==> |c| >= 1 && c[0] == cur
    decreases budget
  {
    if budget == 0 || cur == 0 then [] else [cur] + Chain(prev[cur % WINDOW_SIZE], prev, budget - 1)
  }

  /**
   * With a chain table that holds only zeros, the walk visits at most one
   * candidate: the hash head itself.
   */
  lemma {:induction false} ZeroChainVisitsOnlyHead(head: nat, prev: seq<nat>, budget: nat)
    requires |prev| == WINDOW_SIZE && forall i :: 0 <= i < WINDOW_SIZE ==> prev[i] == 0
    ensures Chain(head, prev, budget) == if head == 0 || budget == 0 then [] else [head]
  {
    if head != 0 && budget != 0 {
      assert prev[head % WINDOW_SIZE] == 0;
      assert Chain(0, prev, budget - 1) == [];
    }
  }

  /** The window after writing s one byte at a time from start on, wrapping at the end. */
  function Written(w: seq<byte>, start: nat, s: seq<byte>): (r: seq<byte>)
    requires |w| == WINDOW_SIZE && start < WINDOW_SIZE
    ensures |r| == WINDOW_SIZE
  {
    if s == [] then w
    else Written(w, start, s[..|s| - 1])[(start + |s| - 1) % WINDOW_SIZE := s[|s| - 1]]
  }

  /** Cell j is at distance (j - start) mod WINDOW_SIZE from start; it is the k-th cell written exactly when that distance is k. */
  lemma CellDistance(j: nat, start: nat, k: nat)
    requires j < WINDOW_SIZE && start < WINDOW_SIZE && k < WINDOW_SIZE
    ensures j == (start + k) % WINDOW_SIZE <==> (j - start) % WINDOW_SIZE == k
  {
    var n := WINDOW_SIZE;
    if j == (start + k) % n {
      DivMod(start + k, n);
      ModUnique(j - start, n, -((start + k) / n), k);
    }
    if (j - start) % n == k {
      DivMod(j - start, n);
      ModUnique(start + k, n, -((j - start) / n), j);
    }
  }

  /**
   * Writing at most WINDOW_SIZE bytes from start: a cell at distance d < |s|
   * from start holds s[d], every other cell keeps its old byte.
   */
  lemma {:induction false} WrittenCells(w: seq<byte>, start: nat, s: seq<byte>)
    requires |w| == WINDOW_SIZE && start < WINDOW_SIZE && |s| <= WINDOW_SIZE
    ensures forall j :: 0 <= j < WINDOW_SIZE ==>
              Written(w, start, s)[j] == if (j - start) % WINDOW_SIZE < |s| then s[(j - start) % WINDOW_SIZE] else w[j]
  {
    if s != [] {
      var k := |s| - 1;
      var s' := s[..k];
      WrittenCells(w, start, s');
      forall j | 0 <= j < WINDOW_SIZE
        ensures Written(w, start, s)[j] == if (j - start) % WINDOW_SIZE < |s| then s[(j - start) % WINDOW_SIZE] else w[j]
      {
        CellDistance(j, start, k);
      }
    }
  }

  /** Writing one more byte of data[pos..] writes it at distance i from start. */
  lemma WrittenSnoc(w: seq<byte>, start: nat, data: seq<byte>, pos: nat, i: nat)
    requires |w| == WINDOW_SIZE && start < WINDOW_SIZE && pos + i + 1 <= |data|
    ensures Written(w, start, data[pos..pos + i + 1])
         == Written(w, start, data[pos..pos + i])[(start + i) % WINDOW_SIZE := data[pos + i]]
  {
    assert data[pos..pos + i + 1][..i] == data[pos..pos + i];
  }

  /** The cell after the one at distance i from start is the one at distance i + 1. */
  lemma NextCell(start: nat, i: nat)
    ensures ((start + i) % WINDOW_SIZE + 1) % WINDOW_SIZE == (start + i + 1) % WINDOW_SIZE
  {
    ModAddLeft(start + i, 1, WINDOW_SIZE);
  }

  /** The match length of every candidate in cands. */
  function Lengths(data: seq<byte>, pos: nat, maxLen: nat, w: seq<byte>, cands: seq<nat>): (lens: seq<nat>)
    requires pos + maxLen <= |data| && |w| == WINDOW_SIZE
    ensures |lens| == |cands|
    ensures forall j :: 0 <= j < |cands| ==> lens[j] == MatchLength(data, pos, maxLen, w, cands[j])
  {
    seq(|cands|, j requires 0 <= j < |cands| => MatchLength(data, pos, maxLen, w, cands[j]))
  }

  /**
   * best is the earliest candidate of greatest length, and bestLen that
   * length; with no candidate longer than 0, best is 0.
   */
  ghost predicate IsBest(cands: seq<nat>, lens: seq<nat>, best: nat, bestLen: nat)
    requires |lens| == |cands|
  {
    && (forall j :: 0 <= j < |lens| ==> lens[j] <= bestLen)
    && (bestLen == 0 ==> best == 0)
    && (bestLen > 0 ==>
          exists j :: 0 <= j < |lens| && cands[j] == best && lens[j] == bestLen
                      && forall k :: 0 <= k < j ==> lens[k] < bestLen)
  }

  /** One step of the chain walk keeps IsBest: a strictly longer match replaces the best, a tie does not. */
  lemma BestStep(cands: seq<nat>, lens: seq<nat>, best: nat, bestLen: nat, c: nat, l: nat)
    requires |lens| == |cands| && IsBest(cands, lens, best, bestLen)
    ensures IsBest(cands + [c], lens + [l], if l > bestLen then c else best, if l > bestLen then l else bestLen)
  {
    var cands', lens' := cands + [c], lens + [l];
    if l > bestLen {
      assert cands'[|cands|] == c && lens'[|cands|] == l;
      assert forall k :: 0 <= k < |cands| ==> lens'[k] < l;
    } else if bestLen > 0 {
      var j :| 0 <= j < |lens| && cands[j] == best && lens[j] == bestLen
               && forall k :: 0 <= k < j ==> lens[k] < bestLen;
      assert cands'[j] == best && lens'[j] == bestLen;
      assert forall k :: 0 <= k < j ==> lens'[k] < bestLen;
    }
  }

  class MatchFinder {
    const window: array<byte>       // uint8_t[WINDOW_SIZE]
    const hashTable: array<nat>     // uint32_t[HASH_SIZE]: the last window position seen per hash
    const prevTable: array<nat>     // uint32_t[WINDOW_SIZE]: the chain links
    var windowPos: nat

    ghost predicate Valid()
      reads this, window, hashTable, prevTable
    {
      && window.Length == WINDOW_SIZE && hashTable.Length == HASH_SIZE && prevTable.Length == WINDOW_SIZE
      && hashTable != prevTable
      && windowPos < WINDOW_SIZE
      // prev_table is zeroed by the constructor and no operation writes it
      && (forall i :: 0 <= i < WINDOW_SIZE ==> prevTable[i] == 0)
    }

    /** The tables start zeroed (the source's memset); the window's initial bytes are left arbitrary. */
    constructor ()
      ensures Valid() && windowPos == 0
      ensures fresh(window) && fresh(hashTable) && fresh(prevTable)
      ensures forall i :: 0 <= i < HASH_SIZE ==> hashTable[i] == 0
    {
      window := new byte[WINDOW_SIZE];
      hashTable := new nat[HASH_SIZE](_ => 0);
      prevTable := new nat[WINDOW_SIZE](_ => 0);
      windowPos := 0;
    }

    /**
     * find_match(data, pos, max_len, match_len). matchLenIn is the caller's
     * match_len, which the early return leaves untouched.
     */
    method FindMatch(data: seq<byte>, pos: nat, maxLen: nat, matchLenIn: nat) returns (bestMatch: nat, matchLen: nat)
      requires Valid()
      requires pos >= 4 ==> pos + 4 <= |data| && pos + maxLen <= |data|
      modifies hashTable
      ensures Valid()
      ensures pos < 4 ==> bestMatch == 0 && matchLen == matchLenIn && hashTable[..] == old(hashTable[..])
      ensures pos >= 4 ==>
                var h := HeadSlot(data, pos);
                var visited := Chain(old(hashTable[h]), prevTable[..], CHAIN_LIMIT);
                && hashTable[..] == old(hashTable[..])[h := windowPos]
                && matchLen <= maxLen
                && IsBest(visited, Lengths(data, pos, maxLen, window[..], visited), bestMatch, matchLen)
    {
      if pos < 4 {
        return 0, matchLenIn;
      }
      var h := HeadSlot(data, pos);
      var cur: nat := hashTable[h];
      hashTable[h] := windowPos;
      bestMatch, matchLen := WalkChain(data, pos, maxLen, cur);
    }

    /**
     * The chain walk of find_match from the head cur: at most CHAIN_LIMIT
     * candidates, the first strictly longest match kept.
     */
    method WalkChain(data: seq<byte>, pos: nat, maxLen: nat, head: nat) returns (bestMatch: nat, bestLen: nat)
      requires Valid() && pos + maxLen <= |data|
      ensures bestLen <= maxLen
      ensures var visited := Chain(head, prevTable[..], CHAIN_LIMIT);
              IsBest(visited, Lengths(data, pos, maxLen, window[..], visited), bestMatch, bestLen)
    {
      bestMatch, bestLen := 0, 0;
      var cur: nat := head;
      ghost var prev := prevTable[..];
      ghost var all := Chain(head, prev, CHAIN_LIMIT);
      ghost var visited: seq<nat> := [];
      ghost var lens: seq<nat> := [];
      var i := 0;
      while i < CHAIN_LIMIT && cur != 0
        invariant 0 <= i <= CHAIN_LIMIT && |visited| == i && |lens| == i
        invariant visited + Chain(cur, prev, CHAIN_LIMIT - i) == all
        invariant lens == Lengths(data, pos, maxLen, window[..], visited)
        invariant bestLen <= maxLen
        invariant IsBest(visited, lens, bestMatch, bestLen)
      {
        var len := MatchLengthAt(data, pos, maxLen, cur);
        BestStep(visited, lens, bestMatch, bestLen, cur, len);
        if len > bestLen {
          bestLen := len;
          bestMatch := cur;
        }
        assert Chain(cur, prev, CHAIN_LIMIT - i) == [cur] + Chain(prev[cur % WINDOW_SIZE], prev, CHAIN_LIMIT - i - 1);
        visited := visited + [cur];
        lens := lens + [len];
        cur := prevTable[cur % WINDOW_SIZE];
        i := i + 1;
      }
      assert visited == all;
    }

    /** The comparison loop of find_match: how far data[pos..] agrees with the window at matchPos, at most maxLen bytes. */
    method MatchLengthAt(data: seq<byte>, pos: nat, maxLen: nat, matchPos: nat) returns (len: nat)
      requires Valid() && pos + maxLen <= |data|
      ensures len == MatchLength(data, pos, maxLen, window[..], matchPos)
    {
      len := 0;
      while len < maxLen && data[pos + len] == window[(matchPos + len) % WINDOW_SIZE]
        invariant len <= maxLen && Agree(data, pos, window[..], matchPos, len)
        invariant MatchFrom(data, pos, maxLen, window[..], matchPos, len) == MatchLength(data, pos, maxLen, window[..], matchPos)
        decreases maxLen - len
      {
        len := len + 1;
      }
    }

    /** update(data, pos, len): copy data[pos..pos+len) into the window at window_pos, wrapping. */
    method Update(data: seq<byte>, pos: nat, len: nat)
      requires Valid() && pos + len <= |data|
      modifies this, window
      ensures Valid()
      ensures windowPos == (old(windowPos) + len) % WINDOW_SIZE
      ensures window[..] == Written(old(window[..]), old(windowPos), data[pos..pos + len])
    {
      var i := 0;
      while i < len
        invariant i <= len && windowPos == (old(windowPos) + i) % WINDOW_SIZE
        invariant window[..] == Written(old(window[..]), old(windowPos), data[pos..pos + i])
      {
        WrittenSnoc(old(window[..]), old(windowPos), data, pos, i);
        NextCell(old(windowPos), i);
        window[windowPos] := data[pos + i];
        windowPos := (windowPos + 1) % WINDOW_SIZE;
        i := i + 1;
      }
    }
  }
}
