/** `get_writing_path`: find a fresh output directory name by trying
    `working_dir`, `working_dir_1`, `working_dir_2`, ... in turn.  Whether a
    path exists is membership in the finite set `existing` of names already on
    disk; creating the directory and copying the configuration into it are
    not part of this model. */
module WritingPath {

  function DigitChar(d: nat): (ch: char)
    requires d < 10
    ensures '0' <= ch <= '9'
  {
    ('0' as int + d) as char
  }

  predicate IsDigits(s: string) {
    forall j :: 0 <= j < |s| ==> '0' <= s[j] <= '9'
  }

  /** Python's `str(n)` for a non-negative integer: its decimal digits,
      without a leading zero. */
  function NatToString(n: nat): (s: string)
    ensures 1 <= |s| && IsDigits(s)
    ensures |s| > 1 ==> s[0] != '0'
    decreases n
  {
    if n < 10 then [DigitChar(n)] else NatToString(n / 10) + [DigitChar(n % 10)]
  }

  /** The number a string of decimal digits denotes. */
  function DecimalValue(s: string): nat
    requires IsDigits(s)
    decreases |s|
  {
    if s == [] then 0
    else 10 * DecimalValue(s[..|s| - 1]) + (s[|s| - 1] as int - '0' as int)
  }

  lemma {:induction false} DecimalValueOfString(n: nat)
    ensures DecimalValue(NatToString(n)) == n
    decreases n
  {
    if n >= 10 {
      var s := NatToString(n);
      assert s[..|s| - 1] == NatToString(n / 10);
      DecimalValueOfString(n / 10);
    }
  }

  /** Different counters print differently. */
  lemma NatToStringInjective(a: nat, b: nat)
    requires NatToString(a) == NatToString(b)
    ensures a == b
  {
    DecimalValueOfString(a);
    DecimalValueOfString(b);
  }

  /** The name tried at step `j`: `working_dir` itself, then
      `working_dir + "_" + str(j)`. */
  function Candidate(base: string, j: nat): string {
    if j == 0 then base else base + "_" + NatToString(j)
  }

  /** No name is tried twice. */
  lemma CandidateInjective(base: string, i: nat, j: nat)
    requires Candidate(base, i) == Candidate(base, j)
    ensures i == j
  {
    if i > 0 && j > 0 {
      var ci, cj := Candidate(base, i), Candidate(base, j);
      assert NatToString(i) == ci[|base| + 1..];
      assert NatToString(j) == cj[|base| + 1..];
      NatToStringInjective(i, j);
    }
  }

  /** One pass of the loop body turns the name tried at step `i - 1` into the
      name tried at step `i`: the first pass appends "_", later passes cut off
      exactly the digits of the previous counter; then `str(i)` is appended. */
  lemma NextCandidate(base: string, i: nat)
    requires i >= 1
    ensures i == 1 ==> Candidate(base, 0) + "_" + NatToString(1) == Candidate(base, 1)
    ensures i > 1 ==> var prev := Candidate(base, i - 1);
      |NatToString(i - 1)| <= |prev| &&
      prev[..|prev| - |NatToString(i - 1)|] + NatToString(i) == Candidate(base, i)
  {
  }

  /** The names tried before step `n`. */
  function CandidatesBelow(base: string, n: nat): set<string>
    decreases n
  {
    if n == 0 then {} else CandidatesBelow(base, n - 1) + {Candidate(base, n - 1)}
  }

  lemma {:induction false} CandidatesBelowComplete(base: string, n: nat, m: nat)
    ensures Candidate(base, m) in CandidatesBelow(base, n) <==> m < n
    decreases n
  {
    if n > 0 {
      CandidatesBelowComplete(base, n - 1, m);
      if Candidate(base, m) == Candidate(base, n - 1) {
        CandidateInjective(base, m, n - 1);
      }
    }
  }

  lemma {:induction false} CandidatesBelowSize(base: string, n: nat)
    ensures |CandidatesBelow(base, n)| == n
    decreases n
  {
    if n > 0 {
      CandidatesBelowSize(base, n - 1);
      CandidatesBelowComplete(base, n - 1, n - 1);
    }
  }

  lemma {:induction false} SubsetSize<T>(a: set<T>, b: set<T>)
    requires a <= b
    ensures |a| <= |b|
    decreases |a|
  {
    if a != {} {
      var x :| x in a;
      SubsetSize(a - {x}, b - {x});
    }
  }

  /** If the first `n` names all exist, at least `n` names exist. */
  lemma TriedBound(base: string, existing: set<string>, n: nat)
    requires forall j :: 0 <= j < n ==> Candidate(base, j) in existing
    ensures n <= |existing|
  {
    forall x | x in CandidatesBelow(base, n) ensures x in existing {
      CandidatesBelowMember(base, n, x);
    }
    CandidatesBelowSize(base, n);
    SubsetSize(CandidatesBelow(base, n), existing);
  }

  lemma {:induction false} CandidatesBelowMember(base: string, n: nat, x: string)
    requires x in CandidatesBelow(base, n)
    ensures exists j :: 0 <= j < n && x == Candidate(base, j)
    decreases n
  {
    if x != Candidate(base, n - 1) {
      CandidatesBelowMember(base, n - 1, x);
    }
  }

  /** The first step from `j` on whose name does not exist. */
  function FreeIndexFrom(base: string, existing: set<string>, j: nat): (k: nat)
    requires forall i :: 0 <= i < j ==> Candidate(base, i) in existing
    ensures j <= k <= |existing|
    ensures Candidate(base, k) !in existing
    ensures forall i :: 0 <= i < k ==> Candidate(base, i) in existing
    decreases |existing| - j
  {
    TriedBound(base, existing, j);
    if Candidate(base, j) !in existing then j
    else
      TriedBound(base, existing, j + 1);
      FreeIndexFrom(base, existing, j + 1)
  }

  /** The step at which `get_writing_path` stops: the first whose name does
      not exist.  It is at most the number of existing names, so the loop
      checks at most `|existing| + 1` names. */
  function FreeIndex(base: string, existing: set<string>): (k: nat)
    ensures k <= |existing|
    ensures Candidate(base, k) !in existing
    ensures forall i :: 0 <= i < k ==> Candidate(base, i) in existing
  {
    FreeIndexFrom(base, existing, 0)
  }

  /** Only one step has a fresh name and all names before it taken. */
  lemma FreeIndexUnique(base: string, existing: set<string>, k: nat)
    requires Candidate(base, k) !in existing
    requires forall i :: 0 <= i < k ==> Candidate(base, i) in existing
    ensures FreeIndex(base, existing) == k
  {
  }

  /** `get_writing_path` without its side effects: returns the name of the
      directory it would create. */
  method GetWritingPath(workingDir: string, existing: set<string>) returns (path: string)
    ensures path !in existing
    ensures path == Candidate(workingDir, FreeIndex(workingDir, existing))
    ensures workingDir !in existing ==> path == workingDir
  {
    var dir := workingDir;
    var i: nat := 1;
    while dir in existing
      invariant i >= 1
      invariant dir == Candidate(workingDir, i - 1)
      invariant forall j :: 0 <= j < i - 1 ==> Candidate(workingDir, j) in existing
      decreases |existing| - (i - 1)
    {
      TriedBound(workingDir, existing, i);
      NextCandidate(workingDir, i);
      if i > 1 {
        dir := dir[..|dir| - |NatToString(i - 1)|];
      } else {
        dir := dir + "_";
      }
      dir := dir + NatToString(i);
      i := i + 1;
    }
    FreeIndexUnique(workingDir, existing, i - 1);
    path := dir;
  }
}
