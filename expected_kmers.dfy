/** The k-mers that a perfect tandem array of a repeat unit shows at a fixed
    k-mer length: one window per reading frame of the unit, optionally
    reduced to canonical k-mers. */
module ExpectedKmers {
  import opened Dna
  import opened Modular
  import opened RepeatUnits

  /** Python's string repetition `s * n`. */
  function Repeat(s: string, n: nat): (r: string)
  {
    if n == 0 then [] else s + Repeat(s, n - 1)
  }

  /** `s * n` has n copies of s. */
  lemma {:induction false} RepeatLength(s: string, n: nat)
    ensures |Repeat(s, n)| == n * |s|
  {
    if n > 0 {
      RepeatLength(s, n - 1);
      assert (n - 1) * |s| + |s| == n * |s|;
    }
  }

  /** Character j of `s * n` is character j mod |s| of s. */
  lemma {:induction false} RepeatAt(s: string, n: nat, j: nat)
    requires |s| > 0 && j < n * |s|
    ensures |Repeat(s, n)| == n * |s|
    ensures Repeat(s, n)[j] == s[j % |s|]
  {
    var l := |s|;
    RepeatLength(s, n);
    RepeatLength(s, n - 1);
    assert Repeat(s, n) == s + Repeat(s, n - 1);
    if j < l {
      SmallMod(j, l);
    } else {
      assert j - l < (n - 1) * l by {
        assert (n - 1) * l + l == n * l;
      }
      RepeatAt(s, n - 1, j - l);
      ModShift(j - l, l);
      assert j - l + l == j;
    }
  }

  /** `s * (k // len(s)) + s[0:k % len(s)]`, the length-k prefix of the
      tandem array s s s ... */
  function TandemWindow(s: string, k: nat): (w: string)
    requires |s| > 0
  {
    Repeat(s, k / |s|) + s[..k % |s|]
  }

  /** Helper for TandemWindowAt, with the quotient and remainder named. */
  lemma WindowCharAt(s: string, q: nat, r: nat, j: nat)
    requires r < |s| && j < q * |s| + r
    ensures |Repeat(s, q) + s[..r]| == q * |s| + r
    ensures (Repeat(s, q) + s[..r])[j] == s[j % |s|]
  {
    var l := |s|;
    RepeatLength(s, q);
    var ql := q * l;
    if j < ql {
      RepeatAt(s, q, j);
    } else {
      var t := j - ql;
      ModAddMultiple(q, l, t);
      SmallMod(t, l);
      assert ql + t == j;
    }
  }

  /** TandemWindow(s, k) has length k and reads s cyclically. */
  lemma TandemWindowAt(s: string, k: nat)
    requires |s| > 0
    ensures |TandemWindow(s, k)| == k
    ensures forall j :: 0 <= j < k ==> TandemWindow(s, k)[j] == s[j % |s|]
  {
    DivMod(k, |s|);
    RepeatLength(s, k / |s|);
    forall j | 0 <= j < k
      ensures TandemWindow(s, k)[j] == s[j % |s|]
    {
      WindowCharAt(s, k / |s|, k % |s|, j);
    }
  }

  lemma TandemWindowOfDna(s: string, k: nat)
    requires |s| > 0 && IsDna(s)
    ensures IsDna(TandemWindow(s, k))
  {
    TandemWindowAt(s, k);
  }

  /** The expected k-mer of reading frame i: the window of rotation i. */
  function RotationWindow(u: string, i: nat, k: nat): (w: string)
    requires i < |u|
    ensures |w| == k
    ensures IsDna(u) ==> IsDna(w)
  {
    TandemWindowAt(Rotation(u, i), k);
    if IsDna(u) then
      RotationOfDna(u, i);
      TandemWindowOfDna(Rotation(u, i), k);
      TandemWindow(Rotation(u, i), k)
    else
      TandemWindow(Rotation(u, i), k)
  }

  /** The k-mers a tandem array of `u` shows at length k, one per reading
      frame, each replaced by its canonical k-mer when `canonical` holds. */
  function ExpectedWindows(u: string, k: nat, canonical: bool): (e: seq<string>)
    requires |u| > 0 && (canonical ==> IsDna(u))
    ensures |e| == |u|
    ensures forall i :: 0 <= i < |e| ==> |e[i]| == k
    ensures canonical ==> forall i :: 0 <= i < |e| ==> IsDna(e[i]) && CanonicalKmer(e[i]) == e[i]
  {
    var w := seq(|u|, i requires 0 <= i < |u| => RotationWindow(u, i, k));
    if canonical then
      forall i | 0 <= i < |u|
        ensures CanonicalKmer(CanonicalKmer(w[i])) == CanonicalKmer(w[i])
      {
        CanonicalKmerIdempotent(w[i]);
      }
      seq(|u|, i requires 0 <= i < |u| => CanonicalKmer(w[i]))
    else
      w
  }

  /** Rotation i of u reads u from offset |u| - i onwards, cyclically. */
  lemma RotationAt(u: string, i: nat, m: nat)
    requires i < |u| && m < |u|
    ensures Rotation(u, i)[m] == u[(m + |u| - i) % |u|]
  {
    var n := |u|;
    var r := Rotation(u, i);
    if m < i {
      assert r[m] == u[n - i + m];
      SmallMod(m + n - i, n);
    } else {
      assert r[m] == u[m - i];
      ModShift(m - i, n);
      SmallMod(m - i, n);
      assert m - i + n == m + n - i;
    }
  }

  /** Helper: shifting the read position by whole turns of the unit. */
  lemma ReadOffset(j: nat, n: nat, i: nat)
    requires i < n
    ensures (j + n - i) % n == (j % n + n - i) % n
  {
    DivMod(j, n);
    var q, r := j / n, j % n;
    var qn := q * n;
    assert qn + r == j;
    ModAddMultiple(q, n, r + n - i);
    assert qn + (r + n - i) == j + n - i;
  }

  /** Expected k-mer i (before canonicalization) is the length-k read of the
      infinite tandem array u u u ... starting at offset |u| - i. */
  lemma ExpectedWindowReadsTandemArray(u: string, k: nat, i: nat, j: nat)
    requires i < |u| && j < k
    ensures ExpectedWindows(u, k, false)[i][j] == u[(j + |u| - i) % |u|]
  {
    var n := |u|;
    var r := Rotation(u, i);
    assert ExpectedWindows(u, k, false)[i][j] == r[j % n] by {
      TandemWindowAt(r, k);
    }
    RotationAt(u, i, j % n);
    ReadOffset(j, n, i);
  }

  /** A string is the tandem array of its minimal repeat unit. */
  lemma StringIsTandemOfUnit(s: string)
    requires |s| > 0
    ensures TandemWindow(RepeatFrame(s).1, |s|) == s
  {
    var u := RepeatFrame(s).1;
    TandemWindowAt(u, |s|);
    forall i | 0 <= i < |s|
      ensures TandemWindow(u, |s|)[i] == s[i]
    {
      RepeatUnitTiles(s, i);
    }
  }

  /** What the expected-k-mer generator returns: the k-mers, or the error
      object it returns instead of raising, or the division by zero it raises
      on an empty unit. */
  datatype Expected =
    | Kmers(kmers: seq<string>)
    | ValueError(message: string)
    | ZeroDivisionError

  const K_TOO_SHORT := "k-mer length k must be longer than sequence length"

  /** The expected k-mers of repeat unit `u` at k-mer length `k`. */
  method GetExpectedKmers(u: string, k: int, canonical: bool) returns (r: Expected)
    requires canonical ==> IsDna(u)
    ensures k <= |u| ==> r == ValueError(K_TOO_SHORT)
    ensures |u| == 0 < k ==> r == ZeroDivisionError
    ensures 0 < |u| < k ==> r == Kmers(ExpectedWindows(u, k, canonical))
  {
    if k <= |u| {
      return ValueError(K_TOO_SHORT);
    }
    var seqs := Rotations(u);
    if |u| == 0 {
      return ZeroDivisionError;
    }
    RotationsAreRotations(u);
    var quot := k / |u|;
    var rmdr := k % |u|;
    var out: seq<string> := [];
    for i := 0 to |seqs|
      invariant |out| == i
      invariant forall j :: 0 <= j < i ==> out[j] == RotationWindow(u, j, k)
    {
      var s := seqs[i];
      out := out + [Repeat(s, quot) + s[..rmdr]];
    }
    if canonical {
      out := seq(|out|, i requires 0 <= i < |out| => CanonicalKmer(out[i]));
    }
    return Kmers(out);
  }
}
