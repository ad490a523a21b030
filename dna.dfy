/** Nucleotide strings over A, C, G and T; the reverse complement that the
    repeat finder obtains from Biopython's Seq.reverse_complement; and the
    code-point order in which Python compares two strings (the order that
    `sort()` uses when the canonical forms are chosen). */
module Dna {

  predicate IsBase(c: char)
  {
    c == 'A' || c == 'C' || c == 'G' || c == 'T'
  }

  predicate IsDna(s: string)
  {
    forall i :: 0 <= i < |s| ==> IsBase(s[i])
  }

  /** Watson-Crick pairing: A with T, C with G. */
  function Complement(c: char): (d: char)
    requires IsBase(c)
    ensures IsBase(d) && d != c
  {
    match c
    case 'A' => 'T'
    case 'C' => 'G'
    case 'G' => 'C'
    case _ => 'A'
  }

  /** The string read backwards with every base swapped for its pair. */
  function RevComp(s: string): (r: string)
    requires IsDna(s)
    ensures |r| == |s| && IsDna(r)
  {
    seq(|s|, i requires 0 <= i < |s| => Complement(s[|s| - 1 - i]))
  }

  /** Reverse complement is an involution on DNA. */
  lemma RevCompInvolution(s: string)
    requires IsDna(s)
    ensures RevComp(RevComp(s)) == s
  {
    var r := RevComp(s);
    forall i | 0 <= i < |s|
      ensures RevComp(r)[i] == s[i]
    {
      assert r[|s| - 1 - i] == Complement(s[i]);
      assert Complement(Complement(s[i])) == s[i];
    }
  }

  /** The reverse complement of a concatenation is the concatenation of the
      reverse complements, in the opposite order. */
  lemma RevCompConcat(a: string, b: string)
    requires IsDna(a) && IsDna(b)
    ensures IsDna(a + b)
    ensures RevComp(a + b) == RevComp(b) + RevComp(a)
  {
    assert forall i :: 0 <= i < |a + b| ==> (a + b)[i] == if i < |a| then a[i] else b[i - |a|];
    var l, r := RevComp(a + b), RevComp(b) + RevComp(a);
    forall i | 0 <= i < |l|
      ensures l[i] == r[i]
    {
      if i < |b| {
        assert l[i] == Complement(b[|b| - 1 - i]);
      } else {
        assert l[i] == Complement(a[|a| + |b| - 1 - i]);
      }
    }
  }

  /** Python's comparison `a <= b` on strings: code point by code point,
      a proper prefix sorting first. */
  predicate LexLe(a: string, b: string)
  {
    |a| == 0 || (|b| > 0 && (a[0] < b[0] || (a[0] == b[0] && LexLe(a[1..], b[1..]))))
  }

  lemma {:induction false} LexLeReflexive(a: string)
    ensures LexLe(a, a)
  {
    if |a| > 0 {
      LexLeReflexive(a[1..]);
    }
  }

  lemma {:induction false} LexLeTotal(a: string, b: string)
    ensures LexLe(a, b) || LexLe(b, a)
  {
    if |a| > 0 && |b| > 0 && a[0] == b[0] {
      LexLeTotal(a[1..], b[1..]);
    }
  }

  lemma {:induction false} LexLeAntisymmetric(a: string, b: string)
    requires LexLe(a, b) && LexLe(b, a)
    ensures a == b
  {
    if |a| > 0 {
      LexLeAntisymmetric(a[1..], b[1..]);
      assert a == [a[0]] + a[1..];
      assert b == [b[0]] + b[1..];
    }
  }

  lemma {:induction false} LexLeTransitive(a: string, b: string, c: string)
    requires LexLe(a, b) && LexLe(b, c)
    ensures LexLe(a, c)
  {
    if |a| > 0 && a[0] == b[0] && b[0] == c[0] {
      LexLeTransitive(a[1..], b[1..], c[1..]);
    }
  }

  /** The smallest string of a non-empty list: what `xs.sort()` followed by
      `xs[0]` returns, since the least element of a total order is unique. */
  function Least(xs: seq<string>): (m: string)
    requires |xs| > 0
    ensures m in xs
    ensures forall x :: x in xs ==> LexLe(m, x)
  {
    if |xs| == 1 then
      LexLeReflexive(xs[0]);
      xs[0]
    else
      var m := Least(xs[1..]);
      LexLeReflexive(xs[0]);
      LexLeTotal(xs[0], m);
      LeastBelow(xs[0], m, xs[1..]);
      if LexLe(xs[0], m) then xs[0] else m
  }

  /** Helper for Least: a string below the least of a list is below every
      member of the list. */
  lemma LeastBelow(a: string, m: string, xs: seq<string>)
    requires forall x :: x in xs ==> LexLe(m, x)
    ensures LexLe(a, m) ==> forall x :: x in xs ==> LexLe(a, x)
  {
    if LexLe(a, m) {
      forall x | x in xs
        ensures LexLe(a, x)
      {
        LexLeTransitive(a, m, x);
      }
    }
  }

  /** Two lists holding the same strings have the same least element. */
  lemma LeastOfSameSet(xs: seq<string>, ys: seq<string>)
    requires |xs| > 0 && |ys| > 0
    requires forall x :: x in xs <==> x in ys
    ensures Least(xs) == Least(ys)
  {
    LexLeAntisymmetric(Least(xs), Least(ys));
  }
}
