/** Repeat units of a k-mer: the minimal period of a string, the orbit of a
    string under cyclic rotation, and the canonical (lexicographically least)
    representative of a repeat unit under rotation and reverse complement,
    and of a single k-mer under reverse complement. */
module RepeatUnits {
  import opened Dna
  import opened Modular

  // ---------------------------------------------------------------------
  // Minimal period

  /** The self-alignment test from position i on: every character from i
      agrees with the one f places further, as far as both exist. */
  predicate AgreesFrom(s: string, f: nat, i: nat)
    requires f >= 1
    decreases |s| - i
  {
    i + f >= |s| || (s[i] == s[i + f] && AgreesFrom(s, f, i + 1))
  }

  /** The self-alignment test of the period search, `seq[0:-f] == seq[f:]`,
      compared character by character. */
  predicate ShiftMatches(s: string, f: nat)
    requires f >= 1
  {
    AgreesFrom(s, f, 0)
  }

  lemma {:induction false} AgreesFromIsSliceCompare(s: string, f: nat, i: nat)
    requires f >= 1 && i <= |s|
    ensures AgreesFrom(s, f, i) <==> i + f >= |s| || s[i..|s| - f] == s[i + f..]
    decreases |s| - i
  {
    if i + f < |s| {
      AgreesFromIsSliceCompare(s, f, i + 1);
      var l, r := s[i..|s| - f], s[i + f..];
      assert l == [s[i]] + s[i + 1..|s| - f];
      assert r == [s[i + f]] + s[i + 1 + f..];
      if l == r {
        assert l[0] == r[0];
        assert l[1..] == r[1..];
      }
    }
  }

  /** ShiftMatches is Python's slice comparison: with Python's slices both
      sides are empty once f reaches the length. */
  lemma ShiftMatchesIsSliceCompare(s: string, f: nat)
    requires f >= 1
    ensures ShiftMatches(s, f) <==> f >= |s| || s[..|s| - f] == s[f..]
  {
    AgreesFromIsSliceCompare(s, f, 0);
    if f < |s| {
      assert s[0..|s| - f] == s[..|s| - f];
    }
  }

  lemma {:induction false} AgreesFromAt(s: string, f: nat, i: nat, j: nat)
    requires f >= 1 && AgreesFrom(s, f, i) && i <= j && j + f < |s|
    ensures s[j] == s[j + f]
    decreases j - i
  {
    if i < j {
      AgreesFromAt(s, f, i + 1, j);
    }
  }

  /** The period search started at `frame`: the first shift at or after
      `frame` at which the string agrees with itself, and the prefix of
      that length (`seq[0:frame]`). */
  function RepeatFrameFrom(s: string, frame: nat): (r: (nat, string))
    requires frame >= 1
    ensures frame <= r.0 && (r.0 == frame || r.0 <= |s|)
    ensures ShiftMatches(s, r.0)
    ensures forall g :: frame <= g < r.0 ==> !ShiftMatches(s, g)
    ensures r.1 == s[..if r.0 <= |s| then r.0 else |s|]
    decreases |s| - frame
  {
    if ShiftMatches(s, frame) then (frame, s[..if frame <= |s| then frame else |s|])
    else RepeatFrameFrom(s, frame + 1)
  }

  /** The minimal period of `s` and its repeat unit. The empty string gives
      frame 1 and the empty unit; a string without a shorter period gives
      its own length. */
  function RepeatFrame(s: string): (r: (nat, string))
    ensures |s| == 0 ==> r == (1, "")
    ensures |s| > 0 ==> 1 <= r.0 <= |s| && r.1 == s[..r.0]
    ensures ShiftMatches(s, r.0)
    ensures forall g :: 1 <= g < r.0 ==> !ShiftMatches(s, g)
  {
    RepeatFrameFrom(s, 1)
  }

  /** The unit found by RepeatFrame tiles the string: character i of `s` is
      character i mod f of the unit. */
  lemma {:induction false} RepeatUnitTiles(s: string, i: nat)
    requires i < |s|
    ensures s[i] == RepeatFrame(s).1[i % RepeatFrame(s).0]
    decreases i
  {
    var f, u := RepeatFrame(s).0, RepeatFrame(s).1;
    assert 1 <= f <= |s| && u == s[..f];
    if i < f {
      assert i % f == i;
    } else {
      RepeatUnitTiles(s, i - f);
      AgreesFromAt(s, f, 0, i - f);
      ModShift(i - f, f);
    }
  }

  // ---------------------------------------------------------------------
  // Rotations

  /** `seq[-1] + seq[0:-1]`: the last character moved to the front. */
  function RotateRight(s: string): (r: string)
    requires |s| > 0
    ensures |r| == |s|
  {
    [s[|s| - 1]] + s[..|s| - 1]
  }

  /** The accumulating recursion that lists the rotations: `acc` is extended
      with the current string until it has as many entries as the string
      has characters. */
  function AppendRotations(s: string, acc: seq<string>): (r: seq<string>)
    requires |acc| <= |s|
    ensures |r| == |s| && r[..|acc|] == acc
    ensures |acc| < |s| ==> r[|acc|] == s
    ensures forall j :: |acc| <= j < |s| ==> |r[j]| == |s|
    ensures forall j :: |acc| <= j < |s| - 1 ==> r[j + 1] == RotateRight(r[j])
    decreases |s| - |acc|
  {
    if |acc| == |s| then acc
    else
      var r := AppendRotations(RotateRight(s), acc + [s]);
      assert r[..|acc| + 1][..|acc|] == r[..|acc|];
      r
  }

  /** All rotations of `s`, one per character, starting with `s` itself. */
  function Rotations(s: string): (r: seq<string>)
    ensures |r| == |s|
    ensures |s| > 0 ==> r[0] == s
    ensures forall j :: 0 <= j < |s| ==> |r[j]| == |s|
    ensures forall j :: 0 <= j < |s| - 1 ==> r[j + 1] == RotateRight(r[j])
  {
    AppendRotations(s, [])
  }

  /** Rotation i in closed form: the last i characters moved to the front. */
  function Rotation(s: string, i: nat): (r: string)
    requires i <= |s|
    ensures |r| == |s|
  {
    s[|s| - i..] + s[..|s| - i]
  }

  lemma RotationOfDna(s: string, i: nat)
    requires i <= |s| && IsDna(s)
    ensures IsDna(Rotation(s, i))
  {
    var r := Rotation(s, i);
    forall j | 0 <= j < |r|
      ensures IsBase(r[j])
    {
      if j < i {
        assert r[j] == s[|s| - i + j];
      } else {
        assert r[j] == s[j - i];
      }
    }
  }

  /** Rotating by no step or by a full turn gives the string back. */
  lemma RotationFullTurn(s: string)
    ensures Rotation(s, 0) == s && Rotation(s, |s|) == s
  {
    assert s[|s|..] == [] && s[..|s|] == s;
    assert s[0..] == s && s[..0] == [];
  }

  /** One more right rotation is rotation i + 1. */
  lemma RotationStep(s: string, i: nat)
    requires i < |s|
    ensures RotateRight(Rotation(s, i)) == Rotation(s, i + 1)
  {
    var n := |s|;
    var r := Rotation(s, i);
    if i == 0 {
      RotationFullTurn(s);
    } else {
      var a, b := s[n - i..], s[..n - i];
      ConcatDropLast(a, b);
      assert b[..|b| - 1] == s[..n - i - 1];
      assert s[n - i - 1..] == [s[n - i - 1]] + a;
    }
  }

  lemma ConcatDropLast<T>(a: seq<T>, b: seq<T>)
    requires |b| > 0
    ensures (a + b)[|a| + |b| - 1] == b[|b| - 1]
    ensures (a + b)[..|a| + |b| - 1] == a + b[..|b| - 1]
  {
    assert (a + b)[..|a| + |b| - 1] == a + b[..|b| - 1];
  }

  /** Entry i of Rotations(s) is rotation i. */
  lemma {:induction false} RotationsAt(s: string, i: nat)
    requires i < |s|
    ensures Rotations(s)[i] == Rotation(s, i)
  {
    if i == 0 {
      RotationFullTurn(s);
    } else {
      RotationsAt(s, i - 1);
      RotationStep(s, i - 1);
    }
  }

  lemma RotationsAreRotations(s: string)
    ensures forall i :: 0 <= i < |s| ==> Rotations(s)[i] == Rotation(s, i)
  {
    forall i | 0 <= i < |s|
      ensures Rotations(s)[i] == Rotation(s, i)
    {
      RotationsAt(s, i);
    }
  }

  /** Rotating the last rotation once more returns to the start: the list
      is the whole orbit. */
  lemma RotationsCloseOrbit(s: string)
    requires |s| > 0
    ensures RotateRight(Rotations(s)[|s| - 1]) == s
  {
    RotationsAt(s, |s| - 1);
    RotationStep(s, |s| - 1);
    RotationFullTurn(s);
  }

  /** Rotations compose by adding their steps modulo the length. */
  lemma {:induction false} RotationCompose(s: string, i: nat, j: nat)
    requires i <= |s| && j <= |s|
    ensures Rotation(Rotation(s, i), j)
         == Rotation(s, if i + j <= |s| then i + j else i + j - |s|)
  {
    var t := Rotation(s, i);
    if j == 0 {
      RotationFullTurn(t);
    } else {
      var m := if i + j - 1 <= |s| then i + j - 1 else i + j - 1 - |s|;
      var target := if i + j <= |s| then i + j else i + j - |s|;
      calc {
        Rotation(t, j);
      == { RotationStep(t, j - 1); }
        RotateRight(Rotation(t, j - 1));
      == { RotationCompose(s, i, j - 1); }
        RotateRight(Rotation(s, m));
      == { ComposeLastStep(s, m, target); }
        Rotation(s, target);
      }
    }
  }

  lemma ComposeLastStep(s: string, m: nat, target: nat)
    requires m <= |s| && |s| > 0
    requires target == if m < |s| then m + 1 else 1
    ensures RotateRight(Rotation(s, m)) == Rotation(s, target)
  {
    if m < |s| {
      RotationStep(s, m);
    } else {
      RotationFullTurn(s);
      RotationStep(s, 0);
    }
  }

  /** The set of rotations of `s`. */
  ghost function RotationSet(s: string): set<string>
  {
    set i | 0 <= i < |s| :: Rotation(s, i)
  }

  /** A rotation of `s` has the same rotations as `s`. */
  lemma RotationSetOfRotation(s: string, i: nat)
    requires i < |s|
    ensures RotationSet(Rotation(s, i)) == RotationSet(s)
  {
    var t := Rotation(s, i);
    forall x | x in RotationSet(t)
      ensures x in RotationSet(s)
    {
      var j :| 0 <= j < |t| && x == Rotation(t, j);
      RotationCompose(s, i, j);
      if i + j == |s| {
        RotationFullTurn(s);
      }
    }
    forall x | x in RotationSet(s)
      ensures x in RotationSet(t)
    {
      var m :| 0 <= m < |s| && x == Rotation(s, m);
      var j := if m >= i then m - i else m + |s| - i;
      RotationCompose(s, i, j);
      RotationFullTurn(s);
      assert Rotation(t, j) in RotationSet(t);
    }
  }

  // ---------------------------------------------------------------------
  // Reverse complements of rotations

  function RevComps(xs: seq<string>): (r: seq<string>)
    requires forall x :: x in xs ==> IsDna(x)
    ensures |r| == |xs|
    ensures forall i :: 0 <= i < |xs| ==> r[i] == RevComp(xs[i])
  {
    seq(|xs|, i requires 0 <= i < |xs| => RevComp(xs[i]))
  }

  /** The reverse complement of rotation i is rotation |s| - i of the
      reverse complement. */
  lemma RevCompOfRotation(s: string, i: nat)
    requires i <= |s| && IsDna(s)
    ensures IsDna(Rotation(s, i))
    ensures RevComp(Rotation(s, i)) == Rotation(RevComp(s), |s| - i)
  {
    var n := |s|;
    RotationOfDna(s, i);
    assert s == s[..n - i] + s[n - i..];
    assert IsDna(s[..n - i]) && IsDna(s[n - i..]);
    RevCompConcat(s[n - i..], s[..n - i]);
    RevCompConcat(s[..n - i], s[n - i..]);
    var a, b := RevComp(s[n - i..]), RevComp(s[..n - i]);
    assert RevComp(s) == a + b;
    assert (a + b)[i..] == b && (a + b)[..i] == a;
  }

  /** Reverse complements of all members of a set of DNA strings. */
  ghost function RevCompSet(xs: set<string>): set<string>
  {
    set x | x in xs && IsDna(x) :: RevComp(x)
  }

  lemma RotationSetOfDna(s: string)
    requires IsDna(s)
    ensures forall x :: x in RotationSet(s) ==> IsDna(x) && |x| == |s|
  {
    forall i | 0 <= i < |s|
      ensures IsDna(Rotation(s, i))
    {
      RotationOfDna(s, i);
    }
  }

  /** The rotations of the reverse complement are the reverse complements of
      the rotations. */
  lemma RotationSetOfRevComp(s: string)
    requires IsDna(s)
    ensures RotationSet(RevComp(s)) == RevCompSet(RotationSet(s))
  {
    var n := |s|;
    var rc := RevComp(s);
    RotationSetOfDna(s);
    forall x | x in RotationSet(rc)
      ensures x in RevCompSet(RotationSet(s))
    {
      var j :| 0 <= j < n && x == Rotation(rc, j);
      if j == 0 {
        RotationFullTurn(rc);
        RevCompOfRotation(s, 0);
        RotationFullTurn(s);
        assert x == RevComp(Rotation(s, 0));
      } else {
        RevCompOfRotation(s, n - j);
      }
    }
    forall x | x in RevCompSet(RotationSet(s))
      ensures x in RotationSet(rc)
    {
      var y :| y in RotationSet(s) && IsDna(y) && x == RevComp(y);
      var i :| 0 <= i < n && y == Rotation(s, i);
      RevCompOfRotation(s, i);
      if i == 0 {
        RotationFullTurn(rc);
      }
    }
  }

  lemma RevCompSetInvolution(xs: set<string>)
    requires forall x :: x in xs ==> IsDna(x)
    ensures RevCompSet(RevCompSet(xs)) == xs
  {
    forall x | x in xs
      ensures x in RevCompSet(RevCompSet(xs))
    {
      RevCompInvolution(x);
      assert RevComp(x) in RevCompSet(xs);
    }
    forall x | x in RevCompSet(RevCompSet(xs))
      ensures x in xs
    {
      var y :| y in RevCompSet(xs) && IsDna(y) && x == RevComp(y);
      var z :| z in xs && IsDna(z) && y == RevComp(z);
      RevCompInvolution(z);
    }
  }

  // ---------------------------------------------------------------------
  // Canonical repeat unit

  /** Every reading frame of the unit on either strand. */
  ghost function RepeatClass(u: string): set<string>
  {
    RotationSet(u) + RevCompSet(RotationSet(u))
  }

  /** The canonical form of a repeat unit: the least string among all its
      rotations and the reverse complements of those rotations. */
  function CanonicalRepeat(u: string): (c: string)
    requires |u| > 0 && IsDna(u)
    ensures c in RepeatClass(u)
    ensures forall x :: x in RepeatClass(u) ==> LexLe(c, x)
    ensures |c| == |u| && IsDna(c)
  {
    var rots := Rotations(u);
    RotationsAreRotations(u);
    forall x | x in rots
      ensures IsDna(x)
    {
      var i :| 0 <= i < |rots| && rots[i] == x;
      RotationOfDna(u, i);
    }
    var all := rots + RevComps(rots);
    CandidatesAreClass(u, all);
    Least(all)
  }

  /** The reverse complements of the reading frames of `u` are exactly the
      reading frames of the opposite strand. */
  lemma RevCompsAreOppositeStrand(u: string)
    requires IsDna(u)
    ensures forall x :: x in Rotations(u) ==> IsDna(x)
    ensures forall x :: x in RevComps(Rotations(u)) <==> x in RotationSet(RevComp(u))
  {
    var n, rots := |u|, Rotations(u);
    RotationsAreRotations(u);
    forall x | x in rots
      ensures IsDna(x)
    {
      var i :| 0 <= i < n && rots[i] == x;
      RotationOfDna(u, i);
    }
    var rcs, rc := RevComps(rots), RevComp(u);
    RotationFullTurn(rc);
    forall x | x in rcs
      ensures x in RotationSet(rc)
    {
      var i :| 0 <= i < n && rcs[i] == x;
      RevCompOfRotation(u, i);
      var j := if i == 0 then 0 else n - i;
      assert x == Rotation(rc, j);
    }
    forall x | x in RotationSet(rc)
      ensures x in rcs
    {
      var j :| 0 <= j < n && x == Rotation(rc, j);
      var i := if j == 0 then 0 else n - j;
      RevCompOfRotation(u, i);
      assert rcs[i] == x;
    }
  }

  /** Helper for CanonicalRepeat: the candidate list holds exactly the
      repeat class. */
  lemma CandidatesAreClass(u: string, all: seq<string>)
    requires IsDna(u)
    requires forall x :: x in Rotations(u) ==> IsDna(x)
    requires all == Rotations(u) + RevComps(Rotations(u))
    ensures forall x :: x in all <==> x in RepeatClass(u)
  {
    RotationsAreRotations(u);
    forall x | x in all
      ensures x in RepeatClass(u)
    {
      var i :| 0 <= i < |all| && all[i] == x;
      CandidateInClass(u, all, i);
    }
    forall x | x in RepeatClass(u)
      ensures x in all
    {
      ClassMemberIsCandidate(u, all, x);
    }
  }

  lemma CandidateInClass(u: string, all: seq<string>, i: nat)
    requires IsDna(u)
    requires forall x :: x in Rotations(u) ==> IsDna(x)
    requires forall k :: 0 <= k < |u| ==> Rotations(u)[k] == Rotation(u, k)
    requires all == Rotations(u) + RevComps(Rotations(u))
    requires i < |all|
    ensures all[i] in RepeatClass(u)
  {
    var n, rots := |u|, Rotations(u);
    if i < n {
      assert all[i] == rots[i] == Rotation(u, i);
      assert all[i] in RotationSet(u);
    } else {
      var y := Rotation(u, i - n);
      assert all[i] == RevComps(rots)[i - n] == RevComp(rots[i - n]);
      assert y in RotationSet(u);
      RotationOfDna(u, i - n);
      assert all[i] in RevCompSet(RotationSet(u));
    }
  }

  lemma ClassMemberIsCandidate(u: string, all: seq<string>, x: string)
    requires IsDna(u)
    requires forall x :: x in Rotations(u) ==> IsDna(x)
    requires forall k :: 0 <= k < |u| ==> Rotations(u)[k] == Rotation(u, k)
    requires all == Rotations(u) + RevComps(Rotations(u))
    requires x in RepeatClass(u)
    ensures x in all
  {
    var n := |u|;
    if x in RotationSet(u) {
      var i :| 0 <= i < n && x == Rotation(u, i);
      assert all[i] == x;
    } else {
      var y :| y in RotationSet(u) && IsDna(y) && x == RevComp(y);
      var i :| 0 <= i < n && y == Rotation(u, i);
      assert all[n + i] == x;
    }
  }

  /** Units with the same repeat class have the same canonical form. */
  lemma CanonicalRepeatOfSameClass(u: string, v: string)
    requires |u| > 0 && IsDna(u) && |v| > 0 && IsDna(v)
    requires RepeatClass(u) == RepeatClass(v)
    ensures CanonicalRepeat(u) == CanonicalRepeat(v)
  {
    LexLeAntisymmetric(CanonicalRepeat(u), CanonicalRepeat(v));
  }

  /** The canonical form does not depend on the reading frame of its input. */
  lemma CanonicalRepeatRotationInvariant(u: string, i: nat)
    requires |u| > 0 && IsDna(u) && i < |u|
    ensures IsDna(Rotation(u, i))
    ensures CanonicalRepeat(Rotation(u, i)) == CanonicalRepeat(u)
  {
    RotationOfDna(u, i);
    RotationSetOfRotation(u, i);
    CanonicalRepeatOfSameClass(Rotation(u, i), u);
  }

  /** Nor on the strand of its input. */
  lemma CanonicalRepeatRevCompInvariant(u: string)
    requires |u| > 0 && IsDna(u)
    ensures CanonicalRepeat(RevComp(u)) == CanonicalRepeat(u)
  {
    var rc := RevComp(u);
    RotationSetOfRevComp(u);
    RotationSetOfDna(u);
    RevCompSetInvolution(RotationSet(u));
    assert RepeatClass(rc) == RevCompSet(RotationSet(u)) + RotationSet(u);
    CanonicalRepeatOfSameClass(rc, u);
  }

  /** The canonical form is its own canonical form. */
  lemma CanonicalRepeatIdempotent(u: string)
    requires |u| > 0 && IsDna(u)
    ensures CanonicalRepeat(CanonicalRepeat(u)) == CanonicalRepeat(u)
  {
    var c := CanonicalRepeat(u);
    RotationSetOfDna(u);
    if c in RotationSet(u) {
      var i :| 0 <= i < |u| && c == Rotation(u, i);
      CanonicalRepeatRotationInvariant(u, i);
    } else {
      var y :| y in RotationSet(u) && IsDna(y) && c == RevComp(y);
      var i :| 0 <= i < |u| && y == Rotation(u, i);
      CanonicalRepeatRevCompInvariant(y);
      CanonicalRepeatRotationInvariant(u, i);
    }
  }

  // ---------------------------------------------------------------------
  // Canonical k-mer

  /** The smaller of a k-mer and its reverse complement. */
  function CanonicalKmer(x: string): (c: string)
    requires IsDna(x)
    ensures c == x || c == RevComp(x)
    ensures LexLe(c, x) && LexLe(c, RevComp(x))
    ensures |c| == |x| && IsDna(c)
  {
    LexLeReflexive(x);
    LexLeReflexive(RevComp(x));
    LexLeTotal(x, RevComp(x));
    if LexLe(x, RevComp(x)) then x else RevComp(x)
  }

  /** Both strands of a k-mer have the same canonical form. */
  lemma CanonicalKmerRevComp(x: string)
    requires IsDna(x)
    ensures CanonicalKmer(RevComp(x)) == CanonicalKmer(x)
  {
    RevCompInvolution(x);
    LexLeAntisymmetric(CanonicalKmer(RevComp(x)), CanonicalKmer(x));
  }

  /** A canonical k-mer is its own canonical form. */
  lemma CanonicalKmerIdempotent(x: string)
    requires IsDna(x)
    ensures CanonicalKmer(CanonicalKmer(x)) == CanonicalKmer(x)
  {
    if CanonicalKmer(x) != x {
      CanonicalKmerRevComp(x);
    }
  }
}
