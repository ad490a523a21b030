/** The dump parser: a count dump alternates marker lines `>count` with
    k-mer lines. Every marker sets the current count and is tallied in a
    histogram of counts; every other line is stored under the current count,
    but only when that count is above the cutoff. */
module DumpParser {

  /** Python's `str.isspace`: the characters `rstrip()` removes. */
  predicate IsSpace(c: char)
  {
    var u := c as int;
    || 0x09 <= u <= 0x0D || 0x1C <= u <= 0x20
    || u == 0x85 || u == 0xA0 || u == 0x1680
    || 0x2000 <= u <= 0x200A
    || u == 0x2028 || u == 0x2029 || u == 0x202F || u == 0x205F || u == 0x3000
  }

  /** `line.rstrip()`: the longest prefix that does not end in whitespace. */
  function RStrip(s: string): string
  {
    if |s| == 0 || !IsSpace(s[|s| - 1]) then s
    else RStrip(s[..|s| - 1])
  }

  /** `rstrip()` keeps a prefix, removes only whitespace, and leaves a
      string that is empty or ends in a non-space. */
  lemma {:induction false} RStripIsTrailingTrim(s: string)
    ensures var r := RStrip(s);
      && |r| <= |s| && r == s[..|r|]
      && (|r| == 0 || !IsSpace(r[|r| - 1]))
      && forall k :: |r| <= k < |s| ==> IsSpace(s[k])
  {
    if |s| > 0 && IsSpace(s[|s| - 1]) {
      var t := s[..|s| - 1];
      RStripIsTrailingTrim(t);
      assert RStrip(t) == t[..|RStrip(t)|] == s[..|RStrip(t)|];
    }
  }

  /** Stripping twice strips nothing more. */
  lemma RStripIdempotent(s: string)
    ensures RStrip(RStrip(s)) == RStrip(s)
  {
    RStripIsTrailingTrim(s);
  }

  /** An ASCII decimal digit (what `\d` matches is wider; see README). */
  predicate IsDigit(c: char)
  {
    '0' <= c <= '9'
  }

  /** The pattern `^>(\d+)$` on a stripped line. */
  predicate IsMarker(line: string)
  {
    |line| >= 2 && line[0] == '>' && forall k :: 1 <= k < |line| ==> IsDigit(line[k])
  }

  function DigitValue(c: char): (d: nat)
    requires IsDigit(c)
    ensures d < 10
  {
    c as int - '0' as int
  }

  /** `int(digits)`: the decimal value, most significant digit first. */
  function DecimalValue(ds: string): nat
    requires forall k :: 0 <= k < |ds| ==> IsDigit(ds[k])
  {
    if |ds| == 0 then 0
    else 10 * DecimalValue(ds[..|ds| - 1]) + DigitValue(ds[|ds| - 1])
  }

  /** The count a marker line announces. */
  function MarkerValue(line: string): nat
    requires IsMarker(line)
  {
    DecimalValue(line[1..])
  }

  /** The line at index i as the loop sees it, after `rstrip()`. */
  function Stripped(lines: seq<string>, i: nat): string
    requires i < |lines|
  {
    RStrip(lines[i])
  }

  predicate MarkerAt(lines: seq<string>, i: nat)
    requires i < |lines|
  {
    IsMarker(Stripped(lines, i))
  }

  /** `cur_count` when line i is reached: the value of the last marker
      before it, 0 when there is none. */
  function CountBefore(lines: seq<string>, i: nat): nat
    requires i <= |lines|
  {
    if i == 0 then 0
    else if MarkerAt(lines, i - 1) then MarkerValue(Stripped(lines, i - 1))
    else CountBefore(lines, i - 1)
  }

  /** Line i is stored in `keeper`: a k-mer line whose count is above the
      cutoff. */
  predicate KeptAt(lines: seq<string>, cutoff: int, i: nat)
    requires i < |lines|
  {
    !MarkerAt(lines, i) && CountBefore(lines, i) > cutoff
  }

  /** Line i is the last stored line among the first n with its key. */
  predicate LastKeptAt(lines: seq<string>, cutoff: int, n: nat, i: nat)
    requires i < n <= |lines|
  {
    && KeptAt(lines, cutoff, i)
    && forall j :: i < j < n && Stripped(lines, j) == Stripped(lines, i) ==> !KeptAt(lines, cutoff, j)
  }

  /** How many of the first n lines are markers announcing count c. */
  function MarkersWithValue(lines: seq<string>, n: nat, c: nat): nat
    requires n <= |lines|
  {
    if n == 0 then 0
    else
      var here := if MarkerAt(lines, n - 1) && MarkerValue(Stripped(lines, n - 1)) == c then 1 else 0;
      MarkersWithValue(lines, n - 1, c) + here
  }

  /** How many of the first n lines are markers. */
  function Markers(lines: seq<string>, n: nat): nat
    requires n <= |lines|
  {
    if n == 0 then 0
    else Markers(lines, n - 1) + (if MarkerAt(lines, n - 1) then 1 else 0)
  }

  /** The sum of a histogram's frequencies. */
  ghost function HistoSum(h: map<nat, nat>): nat
    decreases h.Keys
  {
    if h.Keys == {} then 0
    else
      var c :| c in h;
      h[c] + HistoSum(h - {c})
  }

  /** The sum does not depend on which key is taken out first. */
  lemma {:induction false} HistoSumRemove(h: map<nat, nat>, c: nat)
    requires c in h
    ensures HistoSum(h) == h[c] + HistoSum(h - {c})
    decreases h.Keys
  {
    var d :| d in h && HistoSum(h) == h[d] + HistoSum(h - {d});
    if d != c {
      var hd, hc := h - {d}, h - {c};
      HistoSumRemove(hd, c);
      HistoSumRemove(hc, d);
      assert hd - {c} == hc - {d};
    }
  }

  /** Raising one frequency by one raises the sum by one. */
  lemma HistoSumBump(h: map<nat, nat>, c: nat)
    ensures HistoSum(h[c := if c in h then h[c] + 1 else 1]) == HistoSum(h) + 1
  {
    var h' := h[c := if c in h then h[c] + 1 else 1];
    HistoSumRemove(h', c);
    assert h' - {c} == h - {c};
    if c in h {
      HistoSumRemove(h, c);
    } else {
      assert h - {c} == h;
    }
  }

  /** `histo` after the first n lines: the frequency of each announced
      count, and the frequencies add up to the number of markers. */
  ghost predicate HistoAfter(lines: seq<string>, n: nat, histo: map<nat, nat>)
    requires n <= |lines|
  {
    && (forall c :: c in histo <==> MarkersWithValue(lines, n, c) > 0)
    && (forall c :: c in histo ==> histo[c] == MarkersWithValue(lines, n, c))
    && HistoSum(histo) == Markers(lines, n)
  }

  /** `keeper` after the first n lines: exactly the keys of the stored
      lines, each with the count of its last stored occurrence. */
  ghost predicate KeeperAfter(lines: seq<string>, cutoff: int, n: nat, keeper: map<string, nat>)
    requires n <= |lines|
  {
    KeeperKeys(lines, cutoff, n, keeper) && KeeperValues(lines, cutoff, n, keeper)
  }

  ghost predicate KeeperKeys(lines: seq<string>, cutoff: int, n: nat, keeper: map<string, nat>)
    requires n <= |lines|
  {
    forall x :: x in keeper <==>
      exists i :: 0 <= i < n && KeptAt(lines, cutoff, i) && Stripped(lines, i) == x
  }

  ghost predicate KeeperValues(lines: seq<string>, cutoff: int, n: nat, keeper: map<string, nat>)
    requires n <= |lines|
  {
    forall i :: 0 <= i < n && LastKeptAt(lines, cutoff, n, i) ==>
      Stripped(lines, i) in keeper && keeper[Stripped(lines, i)] == CountBefore(lines, i)
  }

  /** The `for line in fh` loop over the lines of the dump, returning the
      histogram and the kept k-mers. */
  method DiscardSingletons(lines: seq<string>, cutoff: int)
    returns (histo: map<nat, nat>, keeper: map<string, nat>)
    ensures HistoAfter(lines, |lines|, histo)
    ensures KeeperAfter(lines, cutoff, |lines|, keeper)
  {
    histo, keeper := map[], map[];
    var curCount: nat := 0;
    for n := 0 to |lines|
      invariant curCount == CountBefore(lines, n)
      invariant HistoAfter(lines, n, histo)
      invariant KeeperAfter(lines, cutoff, n, keeper)
    {
      var line := RStrip(lines[n]);
      assert line == Stripped(lines, n);
      assert KeptAt(lines, cutoff, n) <==> !IsMarker(line) && curCount > cutoff;
      HistoStep(lines, n, histo);
      KeeperStep(lines, cutoff, n, keeper);
      if IsMarker(line) {
        curCount := DecimalValue(line[1..]);
        histo := histo[curCount := if curCount in histo then histo[curCount] + 1 else 1];
      } else if curCount > cutoff {
        keeper := keeper[line := curCount];
      }
    }
  }

  /** A line last stored among the first n + 1 lines was last stored
      among the first n, and line n does not store its key again. */
  lemma LastKeptShrinks(lines: seq<string>, cutoff: int, n: nat, i: nat)
    requires i < n < |lines| && LastKeptAt(lines, cutoff, n + 1, i)
    ensures LastKeptAt(lines, cutoff, n, i)
    ensures Stripped(lines, n) == Stripped(lines, i) ==> !KeptAt(lines, cutoff, n)
  {
  }

  /** One more line: a marker bumps the frequency of its count. */
  lemma HistoStep(lines: seq<string>, n: nat, histo: map<nat, nat>)
    requires n < |lines| && HistoAfter(lines, n, histo)
    ensures MarkerAt(lines, n) ==>
      var c := MarkerValue(Stripped(lines, n));
      HistoAfter(lines, n + 1, histo[c := if c in histo then histo[c] + 1 else 1])
    ensures !MarkerAt(lines, n) ==> HistoAfter(lines, n + 1, histo)
  {
    if MarkerAt(lines, n) {
      HistoSumBump(histo, MarkerValue(Stripped(lines, n)));
    }
  }

  /** One more line: a stored line sets its key to the current count. */
  lemma KeeperStep(lines: seq<string>, cutoff: int, n: nat, keeper: map<string, nat>)
    requires n < |lines| && KeeperAfter(lines, cutoff, n, keeper)
    ensures KeptAt(lines, cutoff, n) ==>
      KeeperAfter(lines, cutoff, n + 1, keeper[Stripped(lines, n) := CountBefore(lines, n)])
    ensures !KeptAt(lines, cutoff, n) ==> KeeperAfter(lines, cutoff, n + 1, keeper)
  {
    if KeptAt(lines, cutoff, n) {
      KeysAdd(lines, cutoff, n, keeper, CountBefore(lines, n));
      ValuesAdd(lines, cutoff, n, keeper);
    } else {
      KeysSkip(lines, cutoff, n, keeper);
      ValuesSkip(lines, cutoff, n, keeper);
    }
  }

  lemma KeysAdd(lines: seq<string>, cutoff: int, n: nat, keeper: map<string, nat>, v: nat)
    requires n < |lines| && KeeperKeys(lines, cutoff, n, keeper) && KeptAt(lines, cutoff, n)
    ensures KeeperKeys(lines, cutoff, n + 1, keeper[Stripped(lines, n) := v])
  {
    var keeper' := keeper[Stripped(lines, n) := v];
    forall x | x in keeper'
      ensures exists i :: 0 <= i < n + 1 && KeptAt(lines, cutoff, i) && Stripped(lines, i) == x
    {
      if x != Stripped(lines, n) {
        var i :| 0 <= i < n && KeptAt(lines, cutoff, i) && Stripped(lines, i) == x;
        assert 0 <= i < n + 1;
      } else {
        assert 0 <= n < n + 1 && KeptAt(lines, cutoff, n) && Stripped(lines, n) == x;
      }
    }
    forall x | exists i :: 0 <= i < n + 1 && KeptAt(lines, cutoff, i) && Stripped(lines, i) == x
      ensures x in keeper'
    {
      var i :| 0 <= i < n + 1 && KeptAt(lines, cutoff, i) && Stripped(lines, i) == x;
      if i < n {
        assert 0 <= i < n && KeptAt(lines, cutoff, i) && Stripped(lines, i) == x;
        assert x in keeper;
      }
    }
  }

  lemma KeysSkip(lines: seq<string>, cutoff: int, n: nat, keeper: map<string, nat>)
    requires n < |lines| && KeeperKeys(lines, cutoff, n, keeper) && !KeptAt(lines, cutoff, n)
    ensures KeeperKeys(lines, cutoff, n + 1, keeper)
  {
    forall x | exists i :: 0 <= i < n + 1 && KeptAt(lines, cutoff, i) && Stripped(lines, i) == x
      ensures x in keeper
    {
      var i :| 0 <= i < n + 1 && KeptAt(lines, cutoff, i) && Stripped(lines, i) == x;
      assert i < n;
    }
  }

  lemma ValuesAdd(lines: seq<string>, cutoff: int, n: nat, keeper: map<string, nat>)
    requires n < |lines| && KeeperValues(lines, cutoff, n, keeper) && KeptAt(lines, cutoff, n)
    ensures KeeperValues(lines, cutoff, n + 1, keeper[Stripped(lines, n) := CountBefore(lines, n)])
  {
    forall i | 0 <= i < n && LastKeptAt(lines, cutoff, n + 1, i)
      ensures Stripped(lines, i) != Stripped(lines, n) && LastKeptAt(lines, cutoff, n, i)
    {
      LastKeptShrinks(lines, cutoff, n, i);
    }
  }

  lemma ValuesSkip(lines: seq<string>, cutoff: int, n: nat, keeper: map<string, nat>)
    requires n < |lines| && KeeperValues(lines, cutoff, n, keeper) && !KeptAt(lines, cutoff, n)
    ensures KeeperValues(lines, cutoff, n + 1, keeper)
  {
    forall i | 0 <= i < n && LastKeptAt(lines, cutoff, n + 1, i)
      ensures LastKeptAt(lines, cutoff, n, i)
    {
      LastKeptShrinks(lines, cutoff, n, i);
    }
  }

  // ---------------------------------------------------------------------
  // Properties

  /** The index of the last marker line before line i, -1 when there is
      none. */
  function LastMarkerBefore(lines: seq<string>, i: nat): (j: int)
    requires i <= |lines|
    ensures -1 <= j < i
    ensures j >= 0 ==> MarkerAt(lines, j)
    ensures forall k :: j < k < i ==> !MarkerAt(lines, k)
  {
    if i == 0 then -1
    else if MarkerAt(lines, i - 1) then i - 1
    else LastMarkerBefore(lines, i - 1)
  }

  /** The count in effect at line i is the value of the last marker before
      it, and 0 when no marker precedes it. */
  lemma {:induction false} CountBeforeIsLastMarker(lines: seq<string>, i: nat)
    requires i <= |lines|
    ensures var j := LastMarkerBefore(lines, i);
      CountBefore(lines, i) == if j < 0 then 0 else MarkerValue(Stripped(lines, j))
  {
    if i > 0 && !MarkerAt(lines, i - 1) {
      CountBeforeIsLastMarker(lines, i - 1);
    }
  }

  /** Lines before the first marker see count 0, so none of them is kept
      when the cutoff is not negative. */
  lemma PreMarkerLinesDropped(lines: seq<string>, cutoff: int, i: nat)
    requires i < |lines| && cutoff >= 0
    requires forall j :: 0 <= j < i ==> !MarkerAt(lines, j)
    ensures !KeptAt(lines, cutoff, i)
  {
    CountBeforeIsLastMarker(lines, i);
  }

  /** Every stored value is above the cutoff (the comparison is strict),
      no marker becomes a key, and every key is free of trailing
      whitespace. */
  lemma KeptEntries(lines: seq<string>, cutoff: int, keeper: map<string, nat>)
    requires KeeperAfter(lines, cutoff, |lines|, keeper)
    ensures forall x :: x in keeper ==> keeper[x] > cutoff && !IsMarker(x) && RStrip(x) == x
  {
    forall x | x in keeper
      ensures keeper[x] > cutoff && !IsMarker(x) && RStrip(x) == x
    {
      var i :| 0 <= i < |lines| && KeptAt(lines, cutoff, i) && Stripped(lines, i) == x;
      var last := LastOccurrence(lines, cutoff, i);
      RStripIdempotent(lines[i]);
    }
  }

  /** Among the stored lines with the key of line i, the last one. */
  lemma {:induction false} LastOccurrence(lines: seq<string>, cutoff: int, i: nat) returns (last: nat)
    requires i < |lines| && KeptAt(lines, cutoff, i)
    ensures i <= last < |lines| && Stripped(lines, last) == Stripped(lines, i)
    ensures LastKeptAt(lines, cutoff, |lines|, last)
    decreases |lines| - i
  {
    if LastKeptAt(lines, cutoff, |lines|, i) {
      return i;
    }
    var j :| i < j < |lines| && Stripped(lines, j) == Stripped(lines, i) && KeptAt(lines, cutoff, j);
    last := LastOccurrence(lines, cutoff, j);
  }
}
