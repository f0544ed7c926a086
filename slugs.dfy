/** The unique-slug assignment that Category.save and Brand.save run when a
    record is saved with an empty slug: probe `base`, `base-1`, `base-2`, ...
    against the slugs already stored and keep the first one that is free. */
module Slugs {
  import opened Sets

  /** The character of a decimal digit. */
  function DigitChar(d: nat): char
    requires d < 10
  {
    ('0' as int + d) as char
  }

  /** The decimal rendering of n without leading zeros, as Python's f-string
      renders an int. */
  function Decimal(n: nat): (s: string)
    ensures |s| >= 1
    ensures forall i :: 0 <= i < |s| ==> '0' <= s[i] <= '9'
    ensures s[0] == '0' <==> n == 0
    decreases n
  {
    if n < 10 then [DigitChar(n)] else Decimal(n / 10) + [DigitChar(n % 10)]
  }

  /** Reads a string of decimal digits back as a number (an independent
      reference for Decimal). */
  function DecimalValue(s: string): nat
    decreases |s|
  {
    if s == [] then 0
    else
      var c := s[|s| - 1];
      var d := if '0' <= c <= '9' then c as int - '0' as int else 0;
      10 * DecimalValue(s[..|s| - 1]) + d
  }

  /** Rendering then reading gives the number back. */
  lemma {:induction false} DecimalRoundTrip(n: nat)
    ensures DecimalValue(Decimal(n)) == n
    decreases n
  {
    var s := Decimal(n);
    if n < 10 {
      assert s[..|s| - 1] == [];
    } else {
      DecimalRoundTrip(n / 10);
      assert s[..|s| - 1] == Decimal(n / 10);
    }
  }

  /** Distinct numbers have distinct renderings. */
  lemma DecimalInjective(a: nat, b: nat)
    requires Decimal(a) == Decimal(b)
    ensures a == b
  {
    DecimalRoundTrip(a);
    DecimalRoundTrip(b);
  }

  /** The slug probed at step n: the base itself, then `base-n`. */
  function Candidate(base: string, n: nat): (c: string)
    ensures |base| <= |c| && c[..|base|] == base
    ensures n == 0 <==> c == base
  {
    if n == 0 then base
    else
      base + "-" + Decimal(n)
  }

  /** Two probes of the same base coincide only when they are the same step. */
  lemma CandidateInjective(base: string, i: nat, j: nat)
    requires Candidate(base, i) == Candidate(base, j)
    ensures i == j
  {
    var ci, cj := Candidate(base, i), Candidate(base, j);
    if i != 0 && j != 0 {
      assert ci[|base| + 1..] == Decimal(i);
      assert cj[|base| + 1..] == Decimal(j);
      DecimalInjective(i, j);
    }
  }

  /** The slugs probed before step n. */
  function Probed(base: string, n: nat): set<string>
  {
    set k | 0 <= k < n :: Candidate(base, k)
  }

  /** The first n probes are n distinct strings. */
  lemma {:induction false} ProbedCount(base: string, n: nat)
    ensures |Probed(base, n)| == n
  {
    if n > 0 {
      ProbedCount(base, n - 1);
      var c := Candidate(base, n - 1);
      assert Probed(base, n) == Probed(base, n - 1) + {c};
      assert c !in Probed(base, n - 1) by {
        if c in Probed(base, n - 1) {
          var k :| 0 <= k < n - 1 && Candidate(base, k) == c;
          CandidateInjective(base, k, n - 1);
        }
      }
    }
  }

  /** Step n is the first probe that is free: the slug the loop settles on. */
  ghost predicate IsFirstFree(base: string, taken: set<string>, n: nat)
  {
    && Candidate(base, n) !in taken
    && forall k :: 0 <= k < n ==> Candidate(base, k) in taken
  }

  /** When the first n probes are all taken, there are at least n stored slugs;
      this is why the probing loop terminates. */
  lemma ProbesBoundedByTaken(base: string, taken: set<string>, n: nat)
    requires forall k :: 0 <= k < n ==> Candidate(base, k) in taken
    ensures n <= |taken|
  {
    ProbedCount(base, n);
    SubsetSize(Probed(base, n), taken);
  }

  /** Scanning from step n, with every earlier probe taken, finds a free one. */
  lemma {:induction false} FirstFreeFrom(base: string, taken: set<string>, n: nat)
    requires forall k :: 0 <= k < n ==> Candidate(base, k) in taken
    ensures exists f :: n <= f <= |taken| && IsFirstFree(base, taken, f)
    decreases |taken| - n
  {
    ProbesBoundedByTaken(base, taken, n);
    if Candidate(base, n) in taken {
      ProbesBoundedByTaken(base, taken, n + 1);
      FirstFreeFrom(base, taken, n + 1);
    } else {
      assert IsFirstFree(base, taken, n);
    }
  }

  /** At most one step is the first free one. */
  lemma FirstFreeUnique(base: string, taken: set<string>, a: nat, b: nat)
    requires IsFirstFree(base, taken, a) && IsFirstFree(base, taken, b)
    ensures a == b
  {
  }

  /** The step of the slug that the save assigns: the base when it is free,
      otherwise the smallest suffix n >= 1 whose `base-n` is free. */
  ghost function FirstFree(base: string, taken: set<string>): (n: nat)
    ensures Candidate(base, n) !in taken
    ensures forall k :: 0 <= k < n ==> Candidate(base, k) in taken
    ensures n == 0 <==> base !in taken
    ensures n <= |taken|
  {
    FirstFreeFrom(base, taken, 0);
    assert Candidate(base, 0) == base;
    var f: nat :| f <= |taken| && IsFirstFree(base, taken, f);
    f
  }

  /** The probing loop of Category.save / Brand.save: starting from `base`,
      try `base-1`, `base-2`, ... until a slug not in `taken` is found. */
  method UniqueSlug(base: string, taken: set<string>) returns (slug: string)
    ensures slug == Candidate(base, FirstFree(base, taken))
  {
    slug := base;
    var num := 1;
    while slug in taken
      invariant 1 <= num <= |taken| + 1
      invariant slug == Candidate(base, num - 1)
      invariant forall k :: 0 <= k < num - 1 ==> Candidate(base, k) in taken
      decreases |taken| - num
    {
      ProbesBoundedByTaken(base, taken, num);
      slug := base + "-" + Decimal(num);
      num := num + 1;
    }
    FirstFreeUnique(base, taken, num - 1, FirstFree(base, taken));
  }

  /** The slug the loop assigns is fresh; it is the base exactly when the base
      is free; otherwise it is `base-n` with every smaller suffix taken. */
  lemma AssignedSlugIsFreshAndMinimal(base: string, taken: set<string>)
    ensures Candidate(base, FirstFree(base, taken)) !in taken
    ensures base !in taken ==> Candidate(base, FirstFree(base, taken)) == base
    ensures base in taken ==>
      && FirstFree(base, taken) >= 1
      && Candidate(base, FirstFree(base, taken)) == base + "-" + Decimal(FirstFree(base, taken))
      && forall k :: 1 <= k < FirstFree(base, taken) ==> base + "-" + Decimal(k) in taken
  {
    var n := FirstFree(base, taken);
    forall k | 1 <= k < n
      ensures base + "-" + Decimal(k) in taken
    {
      assert Candidate(base, k) in taken;
    }
  }
}
