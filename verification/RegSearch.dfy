/** Searching forward for a match (oniguruma/regexec.c): naive and Horspool string search, the
    byte map, and regex_search with the prefilter they make. */
module RegSearch {
  import opened RegInt
  import opened RegTree
  import opened RegRef
  import RegCorrect
  import RegLanguage
  import RegPattern
  import RegSetup
  import opened RegExec
  import opened RegMatch
  import opened RegMatchAt

  const REG_CHAR_TABLE_SIZE := 256

  /** The position of the first occurrence of the string that begins in [from, range), or -1. */
  function Leftmost(text: seq<Byte>, target: seq<Byte>, from: nat, range: int): int
    decreases range - from
  {
    if from >= range then -1
    else if StringAt(text, from, target) then from
    else Leftmost(text, target, from + 1, range)
  }

  /** The position of the last occurrence of the string that begins in [low, from], or -1. */
  function Rightmost(text: seq<Byte>, target: seq<Byte>, low: nat, from: int): int
    decreases from - low
  {
    if from < low then -1
    else if StringAt(text, from, target) then from
    else Rightmost(text, target, low, from - 1)
  }

  lemma {:induction false} LeftmostIs(text: seq<Byte>, target: seq<Byte>, from: nat, range: int)
    ensures var r := Leftmost(text, target, from, range);
            (r == -1 && forall q: nat :: from <= q < range ==> !StringAt(text, q, target)) ||
            (from <= r < range && StringAt(text, r, target) && forall q: nat :: from <= q < r ==> !StringAt(text, q, target))
    decreases range - from
  {
    hide StringAt;
    if from < range && !StringAt(text, from, target) {
      LeftmostIs(text, target, from + 1, range);
    }
  }

  lemma {:induction false} RightmostIs(text: seq<Byte>, target: seq<Byte>, low: nat, from: int)
    ensures var r := Rightmost(text, target, low, from);
            (r == -1 && forall q: nat :: low <= q <= from ==> !StringAt(text, q, target)) ||
            (low <= r <= from && StringAt(text, r, target) && forall q: nat :: r < q <= from ==> !StringAt(text, q, target))
    decreases from - low
  {
    hide StringAt;
    if from >= low && !StringAt(text, from, target) {
      RightmostIs(text, target, low, from - 1);
    }
  }

  /** A search that has passed over positions without an occurrence goes on with the same result. */
  lemma {:induction false} LeftmostSkips(text: seq<Byte>, target: seq<Byte>, from: nat, to: int, range: int)
    requires from <= to && forall q: nat :: from <= q < to && q < range ==> !StringAt(text, q, target)
    ensures Leftmost(text, target, from, range) == Leftmost(text, target, to, range)
    decreases if from <= to then to - from else 0
  {
    hide StringAt;
    if from < to && from < range {
      LeftmostSkips(text, target, from + 1, to, range);
    }
  }

  lemma {:induction false} RightmostSkips(text: seq<Byte>, target: seq<Byte>, low: nat, from: int, to: int)
    requires to <= from && forall q: nat :: to < q <= from && low <= q ==> !StringAt(text, q, target)
    ensures Rightmost(text, target, low, from) == Rightmost(text, target, low, to)
    decreases from - to
  {
    hide StringAt;
    if to < from && low <= from {
      RightmostSkips(text, target, low, from - 1, to);
    }
  }

  // ----- the skip tables -----

  /** How far the window may move when the byte `c` stands under its last place: the distance
      from the last `c` in front of that place, or the whole length. */
  ghost predicate SkipOk(target: seq<Byte>, c: Byte, k: int) {
    0 < k <= |target| &&
    (k < |target| ==> target[|target| - 1 - k] == c) &&
    forall i :: |target| - 1 - k < i < |target| - 1 ==> target[i] != c
  }

  /** The same for a window that moves backward, by the byte under its first place. */
  ghost predicate BackSkipOk(target: seq<Byte>, c: Byte, k: int) {
    0 < k <= |target| &&
    (k < |target| ==> target[k] == c) &&
    forall i :: 0 < i < k ==> target[i] != c
  }

  lemma StringByte(text: seq<Byte>, q: nat, target: seq<Byte>, i: nat)
    requires StringAt(text, q, target) && i < |target|
    ensures text[q + i] == target[i]
  {
    assert text[q..q + |target|][i] == text[q + i];
  }

  lemma HeadDiffers(text: seq<Byte>, s: nat, target: seq<Byte>)
    requires s < |text| && |target| > 0 && text[s] != target[0]
    ensures !StringAt(text, s, target)
  {
    hide StringAt;
    if StringAt(text, s, target) {
      StringByte(text, s, target, 0);
    }
  }

  /** No occurrence of the string ends strictly inside a skip. */
  lemma SkipSafe(text: seq<Byte>, target: seq<Byte>, tail: nat, k: int, q: nat)
    requires tail < |text| && SkipOk(target, text[tail], k)
    requires tail - (|target| - 1) < q < tail - (|target| - 1) + k
    ensures !StringAt(text, q, target)
  {
    hide StringAt;
    if StringAt(text, q, target) {
      StringByte(text, q, target, tail - q);
    }
  }

  lemma BackSkipSafe(text: seq<Byte>, target: seq<Byte>, s: nat, k: int, q: nat)
    requires s < |text| && BackSkipOk(target, text[s], k) && s - k < q < s
    ensures !StringAt(text, q, target)
  {
    hide StringAt;
    if StringAt(text, q, target) {
      StringByte(text, q, target, s - q);
    }
  }

  // ----- searching -----

  /** The inner loop of slow_search and bm_search_backward: compare from the front. */
  method SameForward(text: seq<Byte>, target: seq<Byte>, s: nat, from: nat) returns (same: bool)
    requires from <= |target| && s + |target| <= |text| && forall i :: 0 <= i < from ==> text[s + i] == target[i]
    ensures same <==> StringAt(text, s, target)
  {
    var t := from;
    while t < |target| && target[t] == text[s + t]
      invariant from <= t <= |target|
      invariant forall i :: 0 <= i < t ==> text[s + i] == target[i]
    {
      t := t + 1;
    }
    same := t == |target|;
    if same {
      assert text[s..s + |target|] == target;
    } else {
      assert text[s..s + |target|][t] == text[s + t];
    }
  }

  /** The inner loop of bm_search: compare from the back. */
  method SameBackward(text: seq<Byte>, target: seq<Byte>, tail: nat) returns (same: bool)
    requires |target| - 1 <= tail < |text|
    ensures same <==> StringAt(text, tail - (|target| - 1), target)
  {
    var p, t: int := tail, |target| - 1;
    var s := tail - (|target| - 1);
    while t >= 0 && text[p] == target[t]
      invariant -1 <= t < |target| && p == s + t
      invariant forall i :: t < i < |target| ==> text[s + i] == target[i]
    {
      p, t := p - 1, t - 1;
    }
    same := t < 0;
    if same {
      assert text[s..s + |target|] == target;
    } else {
      assert text[s..s + |target|][t] == text[s + t];
    }
  }

  /** slow_search. */
  method SlowSearch(target: seq<Byte>, text: seq<Byte>, from: nat, range: int) returns (r: int)
    requires |target| > 0 && range <= |text|
    ensures r == Leftmost(text, target, from, range)
  {
    hide Leftmost;
    var end: int := |text| - |target| + 1;
    if end > range { end := range; }
    var s := from;
    while s < end
      invariant from <= s
      invariant forall q: nat :: from <= q < s && q < range ==> !StringAt(text, q, target)
      decreases end - s
    {
      if text[s] == target[0] {
        var same := SameForward(text, target, s, 1);
        if same {
          LeftmostSkips(text, target, from, s, range);
          LeftmostHere(text, target, s, range);
          return s;
        }
      } else {
        HeadDiffers(text, s, target);
      }
      s := s + 1;
    }
    LeftmostNone(text, target, from, range);
    return -1;
  }

  lemma LeftmostHere(text: seq<Byte>, target: seq<Byte>, s: nat, range: int)
    requires s < range && StringAt(text, s, target)
    ensures Leftmost(text, target, s, range) == s
  {
  }

  lemma LeftmostNone(text: seq<Byte>, target: seq<Byte>, from: nat, range: int)
    requires forall q: nat :: from <= q < range ==> !StringAt(text, q, target)
    ensures Leftmost(text, target, from, range) == -1
  {
    LeftmostIs(text, target, from, range);
  }

  /** slow_search_backward. `adjust` is where the text may not be read below. */
  method SlowSearchBackward(target: seq<Byte>, text: seq<Byte>, low: nat, adjust: int, textStart: int) returns (r: int)
    requires |target| > 0 && adjust <= low
    ensures r == Rightmost(text, target, low, textStart)
  {
    hide Rightmost;
    var s: int := |text| - |target|;
    if s > textStart { s := textStart; }
    ghost var top := s;
    while s >= low
      invariant s <= top
      invariant forall q: nat :: s < q <= textStart && low <= q ==> !StringAt(text, q, target)
      decreases s
    {
      if text[s] == target[0] {
        var same := SameForward(text, target, s, 1);
        if same {
          RightmostSkips(text, target, low, textStart, s);
          RightmostHere(text, target, low, s);
          return s;
        }
      } else {
        HeadDiffers(text, s, target);
      }
      if s <= adjust { break; }
      s := s - 1;
    }
    RightmostNone(text, target, low, textStart);
    return -1;
  }

  lemma RightmostHere(text: seq<Byte>, target: seq<Byte>, low: nat, s: nat)
    requires low <= s && StringAt(text, s, target)
    ensures Rightmost(text, target, low, s) == s
  {
  }

  lemma RightmostNone(text: seq<Byte>, target: seq<Byte>, low: nat, from: int)
    requires forall q: nat :: low <= q <= from ==> !StringAt(text, q, target)
    ensures Rightmost(text, target, low, from) == -1
  {
    RightmostIs(text, target, low, from);
  }

  /** The first position in [from, range) whose byte is in the map, or -1. */
  function LeftmostMapped(text: seq<Byte>, bytes: seq<Byte>, from: nat, range: int): int
    requires |bytes| == REG_CHAR_TABLE_SIZE && range <= |text|
    decreases range - from
  {
    if from >= range then -1
    else if bytes[text[from]] != 0 then from
    else LeftmostMapped(text, bytes, from + 1, range)
  }

  lemma {:induction false} LeftmostMappedIs(text: seq<Byte>, bytes: seq<Byte>, from: nat, range: int)
    requires |bytes| == REG_CHAR_TABLE_SIZE && range <= |text|
    ensures var r := LeftmostMapped(text, bytes, from, range);
            (r == -1 && forall q: nat :: from <= q < range ==> bytes[text[q]] == 0) ||
            (from <= r < range && bytes[text[r]] != 0 && forall q: nat :: from <= q < r ==> bytes[text[q]] == 0)
    decreases range - from
  {
    if from < range && bytes[text[from]] == 0 {
      LeftmostMappedIs(text, bytes, from + 1, range);
    }
  }

  /** The loops of set_bm_skip, for the table of bytes. */
  method FillBytes(target: seq<Byte>, table: array<Byte>)
    requires |target| > 0 && table.Length == REG_CHAR_TABLE_SIZE && |target| < REG_CHAR_TABLE_SIZE
    modifies table
    ensures forall c: Byte :: SkipOk(target, c, table[c])
  {
    hide SkipOk, Filled;
    var len := |target|;
    var i := 0;
    while i < REG_CHAR_TABLE_SIZE
      invariant i <= REG_CHAR_TABLE_SIZE
      invariant forall c: Byte :: c < i ==> table[c] == len
    {
      table[i] := len;
      i := i + 1;
    }
    i := 0;
    forall c: Byte ensures Filled(target, c, table[c], 0) {
      FilledStart(target, c);
    }
    while i < len - 1
      invariant 0 <= i <= len - 1
      invariant forall c: Byte :: Filled(target, c, table[c], i)
    {
      ghost var was := table[..];
      table[target[i]] := len - 1 - i;
      forall c: Byte ensures Filled(target, c, table[c], i + 1) {
        assert Filled(target, c, was[c], i);
        FilledStep(target, c, was[c], i);
      }
      i := i + 1;
    }
    forall c: Byte ensures SkipOk(target, c, table[c]) {
      FilledAll(target, c, table[c]);
    }
  }

  /** The loops of set_bm_skip, for the table of ints. */
  method FillInts(target: seq<Byte>, table: array<int>)
    requires |target| > 0 && table.Length == REG_CHAR_TABLE_SIZE
    modifies table
    ensures forall c: Byte :: SkipOk(target, c, table[c])
  {
    hide SkipOk, Filled;
    var len := |target|;
    var i := 0;
    while i < REG_CHAR_TABLE_SIZE
      invariant i <= REG_CHAR_TABLE_SIZE
      invariant forall c: Byte :: c < i ==> table[c] == len
    {
      table[i] := len;
      i := i + 1;
    }
    i := 0;
    forall c: Byte ensures Filled(target, c, table[c], 0) {
      FilledStart(target, c);
    }
    while i < len - 1
      invariant 0 <= i <= len - 1
      invariant forall c: Byte :: Filled(target, c, table[c], i)
    {
      ghost var was := table[..];
      table[target[i]] := len - 1 - i;
      forall c: Byte ensures Filled(target, c, table[c], i + 1) {
        assert Filled(target, c, was[c], i);
        FilledStep(target, c, was[c], i);
      }
      i := i + 1;
    }
    forall c: Byte ensures SkipOk(target, c, table[c]) {
      FilledAll(target, c, table[c]);
    }
  }

  datatype Optimize = NoOptimize | Exact | ExactBm | CharMap

  const POSITION_SEARCH_MIN_THRESHOLD_LENGTH := 7

  /** The parts of regex_t that searching uses. `charMap` is the byte charMap, or the skip table when
      the string is shorter than 256 bytes; longer strings have their skips in `intMap`. */
  class SearchInfo {
    var optimize: Optimize
    var exact: seq<Byte>
    const charMap: array<Byte>
    var intMap: array?<int>
    var intMapBackward: array?<int>
    var dmin: nat
    var dmax: nat
    var thresholdLen: nat

    constructor ()
      ensures Valid() && optimize.NoOptimize? && fresh(charMap)
    {
      optimize, exact, intMap, intMapBackward := NoOptimize, [], null, null;
      dmin, dmax, thresholdLen := 0, 0, 0;
      charMap := new Byte[REG_CHAR_TABLE_SIZE];
    }

    /** The byte skips of bm_search. */
    ghost predicate SkipsOk()
      reads this, charMap, intMap
    {
      charMap.Length == REG_CHAR_TABLE_SIZE &&
      (intMap == null ==> forall c: Byte :: SkipOk(exact, c, charMap[c])) &&
      (intMap != null ==> intMap.Length == REG_CHAR_TABLE_SIZE && forall c: Byte :: SkipOk(exact, c, intMap[c]))
    }

    ghost predicate BackSkipsOk()
      reads this, intMapBackward
    {
      intMapBackward != null && intMapBackward.Length == REG_CHAR_TABLE_SIZE &&
      forall c: Byte :: BackSkipOk(exact, c, intMapBackward[c])
    }

    ghost predicate Valid()
      reads this, charMap, intMap
    {
      charMap.Length == REG_CHAR_TABLE_SIZE &&
      (optimize.Exact? || optimize.ExactBm? ==> |exact| > 0) &&
      (optimize.ExactBm? ==> SkipsOk()) &&
      (optimize.NoOptimize? ==> intMap == null) &&
      dmin <= dmax && (dmax == INFINITE_DISTANCE ==> thresholdLen == 0)
    }

    /** set_bm_skip. */
    method SetBmSkip()
      requires |exact| > 0 && charMap.Length == REG_CHAR_TABLE_SIZE && intMap == null
      modifies this`intMap, charMap
      ensures SkipsOk() && (intMap != null ==> fresh(intMap))
    {
      hide SkipOk;
      if |exact| < REG_CHAR_TABLE_SIZE {
        FillBytes(exact, charMap);
      } else {
        var table := new int[REG_CHAR_TABLE_SIZE];
        FillInts(exact, table);
        intMap := table;
      }
    }

    /** set_optimize_exact, with respect to case. */
    method SetOptimizeExact(e: seq<Byte>, min: nat, max: nat)
      requires |e| > 0 && min <= max && thresholdLen == 0 && charMap.Length == REG_CHAR_TABLE_SIZE && intMap == null
      modifies this, charMap
      ensures Valid() && exact == e && dmin == min && dmax == max
      ensures optimize == if |e| >= 2 then ExactBm else Optimize.Exact
    {
      exact := e;
      if |e| >= 2 {
        SetBmSkip();
        optimize := ExactBm;
      } else {
        optimize := Optimize.Exact;
      }
      dmin, dmax := min, max;
      SetThreshold(|e|);
    }

    /** set_optimize_map. */
    method SetOptimizeMap(bytes: seq<Byte>, min: nat, max: nat)
      requires |bytes| == REG_CHAR_TABLE_SIZE && min <= max && thresholdLen == 0 && charMap.Length == REG_CHAR_TABLE_SIZE
      modifies this, charMap
      ensures Valid() && charMap[..] == bytes && optimize.CharMap? && dmin == min && dmax == max
    {
      var i := 0;
      while i < REG_CHAR_TABLE_SIZE
        invariant i <= REG_CHAR_TABLE_SIZE && charMap[..i] == bytes[..i]
        modifies charMap
      {
        charMap[i] := bytes[i];
        i := i + 1;
      }
      optimize, dmin, dmax := CharMap, min, max;
      SetThreshold(1);
    }

    /** The text length from which on regex_search moves from hit to hit. */
    method SetThreshold(len: nat)
      modifies this`thresholdLen
      ensures if dmax == INFINITE_DISTANCE then thresholdLen == old(thresholdLen)
              else thresholdLen >= dmax + len && thresholdLen >= POSITION_SEARCH_MIN_THRESHOLD_LENGTH
    {
      if dmax != INFINITE_DISTANCE {
        thresholdLen := dmax + len;
        if thresholdLen < POSITION_SEARCH_MIN_THRESHOLD_LENGTH {
          thresholdLen := POSITION_SEARCH_MIN_THRESHOLD_LENGTH;
        }
      }
    }

    /** set_bm_backward_skip. */
    method SetBmBackwardSkip()
      requires |exact| > 0 && (intMapBackward != null ==> intMapBackward.Length == REG_CHAR_TABLE_SIZE)
      modifies this`intMapBackward, intMapBackward
      ensures BackSkipsOk()
    {
      hide BackSkipOk;
      if intMapBackward == null {
        intMapBackward := new int[REG_CHAR_TABLE_SIZE];
      }
      var table, len := intMapBackward, |exact|;
      var i: int := 0;
      while i < REG_CHAR_TABLE_SIZE
        invariant 0 <= i <= REG_CHAR_TABLE_SIZE && intMapBackward == table
        invariant forall c: Byte :: c < i ==> table[c] == len
      {
        table[i] := len;
        i := i + 1;
      }
      i := len - 1;
      forall c: Byte ensures BackFilled(exact, c, table[c], len - 1) {
        BackFilledStart(exact, c);
      }
      while i > 0
        invariant 0 <= i <= len - 1 && intMapBackward == table
        invariant forall c: Byte :: BackFilled(exact, c, table[c], i)
      {
        ghost var was := table[..];
        table[exact[i]] := i;
        forall c: Byte ensures BackFilled(exact, c, table[c], i - 1) {
          assert BackFilled(exact, c, was[c], i);
          BackFilledStep(exact, c, was[c], i);
        }
        i := i - 1;
      }
      forall c: Byte ensures BackSkipOk(exact, c, table[c]) {
        BackFilledAll(exact, c, table[c]);
      }
    }

    /** bm_search. Every move is at least one place, and the result is that of slow_search. */
    method BmSearch(text: seq<Byte>, from: nat, range: int) returns (r: int)
      requires |exact| > 0 && SkipsOk() && range <= |text|
      ensures r == Leftmost(text, exact, from, range)
    {
      hide Leftmost, SkipOk;
      var len := |exact|;
      var end := range + len - 1;
      if end > |text| { end := |text|; }
      var s := from + len - 1;
      while s < end
        invariant from + len - 1 <= s
        invariant forall q: nat :: from <= q < s - (len - 1) && q < range ==> !StringAt(text, q, exact)
        decreases end - s
      {
        var same := SameBackward(text, exact, s);
        if same {
          LeftmostSkips(text, exact, from, s - (len - 1), range);
          LeftmostHere(text, exact, s - (len - 1), range);
          return s - (len - 1);
        }
        var skip: int;
        if intMap == null { skip := charMap[text[s]]; } else { skip := intMap[text[s]]; }
        assert SkipOk(exact, text[s], skip);
        SkipPositive(exact, text[s], skip);
        forall q: nat | s - (len - 1) < q < s - (len - 1) + skip ensures !StringAt(text, q, exact) {
          SkipSafe(text, exact, s, skip, q);
        }
        s := s + skip;
      }
      LeftmostNone(text, exact, from, range);
      return -1;
    }

    /** bm_search_backward. */
    method BmSearchBackward(text: seq<Byte>, low: nat, textStart: int) returns (r: int)
      requires |exact| > 0 && BackSkipsOk()
      ensures r == Rightmost(text, exact, low, textStart)
    {
      hide Rightmost, BackSkipOk;
      var s: int := |text| - |exact|;
      if textStart < s { s := textStart; }
      ghost var top := s;
      while s >= low
        invariant s <= top
        invariant forall q: nat :: s < q <= textStart && low <= q ==> !StringAt(text, q, exact)
        decreases s
      {
        var same := SameForward(text, exact, s, 0);
        if same {
          RightmostSkips(text, exact, low, textStart, s);
          RightmostHere(text, exact, low, s);
          return s;
        }
        var skip := intMapBackward[text[s]];
        assert BackSkipOk(exact, text[s], skip);
        BackSkipPositive(exact, text[s], skip);
        forall q: nat | s - skip < q < s ensures !StringAt(text, q, exact) {
          BackSkipSafe(text, exact, s, skip, q);
        }
        s := s - skip;
      }
      RightmostNone(text, exact, low, textStart);
      return -1;
    }

    /** map_search. */
    method MapSearch(text: seq<Byte>, from: nat, range: int) returns (r: int)
      requires charMap.Length == REG_CHAR_TABLE_SIZE && range <= |text|
      ensures r == LeftmostMapped(text, charMap[..], from, range)
    {
      var s := from;
      while s < range
        invariant from <= s
        invariant LeftmostMapped(text, charMap[..], from, range) == LeftmostMapped(text, charMap[..], s, range)
      {
        if charMap[text[s]] != 0 {
          return s;
        }
        s := s + 1;
      }
      return -1;
    }

    /** A place where the search string, or a byte of the map, stands. */
    ghost predicate Hit(text: seq<Byte>, q: nat)
      reads this, charMap
    {
      match optimize
      case NoOptimize => true
      case Exact => StringAt(text, q, exact)
      case ExactBm => StringAt(text, q, exact)
      case CharMap => charMap.Length == REG_CHAR_TABLE_SIZE && q < |text| && charMap[text[q]] != 0
    }

    /** The first place in [from, range) where the string or a mapped byte stands. */
    method FirstHit(text: seq<Byte>, from: nat, range: int) returns (r: int)
      requires Valid() && !optimize.NoOptimize? && range <= |text|
      ensures r == -1 || (from <= r < range && Hit(text, r))
      ensures forall q: nat :: from <= q < range && (r == -1 || q < r) ==> !Hit(text, q)
    {
      hide Leftmost, LeftmostMapped, SkipOk, StringAt;
      match optimize
      case Exact =>
        r := SlowSearch(exact, text, from, range);
        LeftmostIs(text, exact, from, range);
      case ExactBm =>
        r := BmSearch(text, from, range);
        LeftmostIs(text, exact, from, range);
      case CharMap =>
        r := MapSearch(text, from, range);
        LeftmostMappedIs(text, charMap[..], from, range);
    }

    /** forward_search_range, without an anchor. On success a match that begins at `s` or behind
        it, and needs a hit below `range`, begins at `low` or behind it; the first hit lies at
        `high + dmin`. On failure there is no such match. */
    method ForwardSearchRange(text: seq<Byte>, s: nat, range: int) returns (found: bool, low: int, high: int)
      requires Valid() && !optimize.NoOptimize? && range <= |text|
      ensures found ==> s <= high && low == high + dmin - dmax && Hit(text, high + dmin) && high + dmin < range
      ensures found ==> forall q: nat :: s + dmin <= q < high + dmin ==> !Hit(text, q)
      ensures !found ==> forall q: nat :: s + dmin <= q < range ==> !Hit(text, q)
    {
      hide Hit;
      var p := FirstHit(text, s + dmin, range);
      if p != -1 {
        // the check `p - dmin < s` never holds with one-byte characters
        assert p - dmin >= s;
        return true, p - dmax, p - dmin;
      }
      return false, 0, 0;
    }

    /** What the analysis of the pattern promises: every match that begins at `s` holds a hit
        between `dmin` and `dmax` bytes behind `s`. */
    ghost predicate Promises(n: Node, j: Job)
      reads this, charMap
    {
      forall s: nat :: s <= |j.u.text| && MatchesAt(n, j, s) ==> HitNear(j.u.text, s)
    }

    ghost predicate HitNear(text: seq<Byte>, s: nat)
      reads this, charMap
    {
      optimize.NoOptimize? || exists q: nat :: s + dmin <= q <= s + dmax && q < |text| && Hit(text, q)
    }

    /** The loop of regex_search that moves from hit to hit. */
    method SearchByHits(j: Job, start: nat, range: nat, schRange: int, ghost n: Node) returns (at: int, r: Result)
      requires Valid() && !optimize.NoOptimize? && Compiled(n, j) && Promises(n, j) && start < range <= |j.u.text|
      requires schRange == if dmax == INFINITE_DISTANCE || range + dmax > |j.u.text| then |j.u.text| else range + dmax
      ensures at == -1 || (start <= at <= |j.u.text| && MatchesAt(n, j, at) && r == ResultAt(n, j, at))
      ensures forall q: nat :: start <= q < (if at == -1 then range else at) ==> !MatchesAt(n, j, q)
      ensures at == -1 && range == |j.u.text| ==> !MatchesAt(n, j, range)
    {
      hide Hit, Compiled, MatchesAt, ResultAt, Valid, Promises;
      var s := start;
      while true
        invariant start <= s <= |j.u.text|
        invariant forall q: nat :: start <= q < s ==> !MatchesAt(n, j, q)
        decreases |j.u.text| - s
      {
        var found, low, high := ForwardSearchRange(j.u.text, s, schRange);
        if !found {
          NoneLeft(n, j, s, range, schRange);
          return -1, Mismatch;
        }
        NoneBelow(n, j, s, low, high + dmin);
        if s < low { s := low; }
        s, r := TryFrom(j, s, high, n);
        if r.Match? { return s, r; }
        if s >= range { break; }
      }
      EndHoldsNone(n, j);
      return -1, r;
    }

    /** regex_search, forward, on a pattern without anchors: it returns the leftmost position at
        which match_at matches, and its result there. Below `range` the prefilter never loses a
        match, and where `range` is the end of the text it changes nothing at all. */
    method RegexSearch(j: Job, start: nat, range: nat, ghost n: Node) returns (at: int, r: Result)
      requires Valid() && Compiled(n, j) && Promises(n, j) && start < range <= |j.u.text|
      ensures at == -1 || (start <= at <= |j.u.text| && MatchesAt(n, j, at) && r == ResultAt(n, j, at))
      ensures forall q: nat :: start <= q < (if at == -1 then range else at) ==> !MatchesAt(n, j, q)
      ensures at == -1 && range == |j.u.text| ==> !MatchesAt(n, j, range)
    {
      hide Hit, Compiled, MatchesAt, ResultAt, Valid, Promises;
      var end := |j.u.text|;
      var s := start;
      r := Mismatch;
      if !optimize.NoOptimize? {
        var schRange := if dmax == INFINITE_DISTANCE then end else if range + dmax > end then end else range + dmax;
        if thresholdLen != 0 && end - start >= thresholdLen {
          at, r := SearchByHits(j, start, range, schRange, n);
          return;
        } else {
          if end - start <= dmin {
            NoRoom(n, j, start);
            return -1, r;
          }
          var found, low, high := ForwardSearchRange(j.u.text, s, schRange);
          if !found {
            NoneLeft(n, j, s, range, schRange);
            return -1, r;
          }
        }
      }
      s, r := TryFrom(j, s, range, n);
      if r.Match? { return s, r; }
      return -1, r;
    }

    lemma NearHit(n: Node, j: Job, s: nat) returns (q: nat)
      requires Promises(n, j) && !optimize.NoOptimize? && s <= |j.u.text| && MatchesAt(n, j, s)
      ensures s + dmin <= q <= s + dmax && q < |j.u.text| && Hit(j.u.text, q)
    {
      hide Hit, MatchesAt;
      assert HitNear(j.u.text, s);
      q :| s + dmin <= q <= s + dmax && q < |j.u.text| && Hit(j.u.text, q);
    }

    /** Without a hit below the widened range there is no match below the range. */
    lemma NoneLeft(n: Node, j: Job, s: nat, range: nat, schRange: int)
      requires Promises(n, j) && !optimize.NoOptimize? && range <= |j.u.text|
      requires schRange == if dmax == INFINITE_DISTANCE || range + dmax > |j.u.text| then |j.u.text| else range + dmax
      requires forall q: nat :: s + dmin <= q < schRange ==> !Hit(j.u.text, q)
      ensures forall q: nat :: s <= q < range ==> !MatchesAt(n, j, q)
      ensures range == |j.u.text| && s <= range ==> !MatchesAt(n, j, range)
    {
      hide Hit, MatchesAt;
      forall q: nat | s <= q < range ensures !MatchesAt(n, j, q) {
        if MatchesAt(n, j, q) {
          var p := NearHit(n, j, q);
        }
      }
      EndHoldsNone(n, j);
    }

    /** No match begins between `s` and the earliest start that the first hit allows. */
    lemma NoneBelow(n: Node, j: Job, s: nat, low: int, hit: nat)
      requires Promises(n, j) && !optimize.NoOptimize? && low == hit - dmax && hit < |j.u.text|
      requires forall q: nat :: s + dmin <= q < hit ==> !Hit(j.u.text, q)
      ensures forall q: nat :: s <= q < low ==> !MatchesAt(n, j, q)
    {
      hide Hit, MatchesAt;
      forall q: nat | s <= q < low ensures !MatchesAt(n, j, q) {
        if MatchesAt(n, j, q) {
          var p := NearHit(n, j, q);
        }
      }
    }

    lemma EndHoldsNone(n: Node, j: Job)
      requires Promises(n, j) && !optimize.NoOptimize?
      ensures !MatchesAt(n, j, |j.u.text|)
    {
      hide Hit, MatchesAt;
      if MatchesAt(n, j, |j.u.text|) {
        var p := NearHit(n, j, |j.u.text|);
      }
    }

    lemma NoRoom(n: Node, j: Job, start: nat)
      requires Promises(n, j) && !optimize.NoOptimize? && |j.u.text| - start <= dmin
      ensures forall q: nat :: start <= q <= |j.u.text| ==> !MatchesAt(n, j, q)
    {
      hide Hit, MatchesAt;
      forall q: nat | start <= q <= |j.u.text| ensures !MatchesAt(n, j, q) {
        if MatchesAt(n, j, q) {
          var p := NearHit(n, j, q);
        }
      }
    }
  }

  /** match_at is started anew at every position. */
  function StartedAt(j: Job, s: nat): Job {
    j.(u := j.u.(start := s))
  }

  function ResultAt(n: Node, j: Job, s: nat): Result {
    FirstOf(Outcomes(n, StartedAt(j, s).u, s, j.maxMem, ByCode))
  }

  predicate MatchesAt(n: Node, j: Job, s: nat) {
    ResultAt(n, j, s).Match?
  }

  method TryAt(j: Job, s: nat, ghost n: Node) returns (r: Result)
    requires Compiled(n, j) && s <= |j.u.text|
    ensures r == ResultAt(n, j, s) && (r.Match? <==> MatchesAt(n, j, s))
  {
    hide Outcomes, Inlined, RegCorrect.Prepared;
    r := MatchAt(StartedAt(j, s), s, n);
  }

  /** The loops over match_at: every position from `from` to `last`, until one matches. */
  method TryFrom(j: Job, from: nat, last: int, ghost n: Node) returns (s: nat, r: Result)
    requires Compiled(n, j) && last <= |j.u.text|
    ensures r.Match? ==> from <= s <= last && MatchesAt(n, j, s) && r == ResultAt(n, j, s)
    ensures !r.Match? ==> s == if from <= last then last + 1 else from
    ensures forall q: nat :: from <= q < s ==> !MatchesAt(n, j, q)
  {
    hide Compiled, MatchesAt, ResultAt;
    s, r := from, Mismatch;
    while s <= last
      invariant from <= s && (from <= last ==> s <= last + 1) && (from > last ==> s == from)
      invariant !r.Match?
      invariant forall q: nat :: from <= q < s ==> !MatchesAt(n, j, q)
      decreases last - s
    {
      r := TryAt(j, s, n);
      if r.Match? { return; }
      s := s + 1;
    }
  }

  /** What searching means for a pattern without back-references and atomic groups: match_at
      matches at exactly those positions from which the parsed pattern matches to some end. */
  lemma MatchesAtIsLanguage(n: Node, j: Job, s: nat)
    requires RegSetup.Parsed(n, j.maxMem) && RegLanguage.Orderless(n) && s <= |j.u.text|
    ensures MatchesAt(RegSetup.Setup(n), j, s) <==> exists e: nat :: RegLanguage.Matches(n, StartedAt(j, s).u, s, e)
  {
    hide RegSetup.Setup, RegSetup.Parsed, RegLanguage.Matches, RegLanguage.Orderless, Outcomes;
    RegPattern.FirstMatches(n, StartedAt(j, s).u, s, j.maxMem);
  }

  /** A skip entry after the first `i` bytes of the string were entered. */
  ghost predicate Filled(target: seq<Byte>, c: Byte, k: int, i: nat) {
    0 < k <= |target| &&
    (k < |target| ==> |target| - 1 - k < i && target[|target| - 1 - k] == c) &&
    forall j :: |target| - 1 - k < j < i && 0 <= j < |target| ==> target[j] != c
  }

  lemma FilledStart(target: seq<Byte>, c: Byte)
    requires |target| > 0
    ensures Filled(target, c, |target|, 0)
  {
  }

  lemma FilledStep(target: seq<Byte>, c: Byte, k: int, i: nat)
    requires i < |target| - 1 && Filled(target, c, k, i)
    ensures Filled(target, c, if target[i] == c then |target| - 1 - i else k, i + 1)
  {
  }

  lemma FilledAll(target: seq<Byte>, c: Byte, k: int)
    requires |target| > 0 && Filled(target, c, k, |target| - 1)
    ensures SkipOk(target, c, k)
  {
  }

  lemma SkipPositive(target: seq<Byte>, c: Byte, k: int)
    requires SkipOk(target, c, k)
    ensures k >= 1
  {
  }

  /** A backward skip entry when the bytes behind place `i` were entered. */
  ghost predicate BackFilled(target: seq<Byte>, c: Byte, k: int, i: nat) {
    0 < k <= |target| && (k < |target| ==> i < k && target[k] == c) &&
    forall j :: i < j < k && j < |target| ==> target[j] != c
  }

  lemma BackFilledStart(target: seq<Byte>, c: Byte)
    requires |target| > 0
    ensures BackFilled(target, c, |target|, |target| - 1)
  {
  }

  lemma BackFilledStep(target: seq<Byte>, c: Byte, k: int, i: nat)
    requires 0 < i < |target| && BackFilled(target, c, k, i)
    ensures BackFilled(target, c, if target[i] == c then i else k, i - 1)
  {
  }

  lemma BackFilledAll(target: seq<Byte>, c: Byte, k: int)
    requires |target| > 0 && BackFilled(target, c, k, 0)
    ensures BackSkipOk(target, c, k)
  {
  }

  lemma BackSkipPositive(target: seq<Byte>, c: Byte, k: int)
    requires BackSkipOk(target, c, k)
    ensures k >= 1
  {
  }
}
