/**
 * `LogseqImageFilenameTransformer`: hands out local file name roots of the
 * form `<root>_<timestamp>_<n>` that clash neither with a file already in the
 * image directory nor with a root handed out before. Only roots are compared,
 * so `a.jpg` and `a.png` claim the same name. The clock is read on every call;
 * here the timestamp is a parameter.
 */
module Uniquifier {
  import opened Strings

  /** The root an existing file claims: its basename without the extension. */
  function ClaimedRoot(fn: string): string {
    SplitExt(Basename(fn)).0
  }

  /** The roots the files of a directory listing claim. */
  function ClaimedRoots(existingFilenames: seq<string>): set<string> {
    set fn | fn in existingFilenames :: ClaimedRoot(fn)
  }

  /** Files whose names differ only in the extension claim the same root. */
  lemma ExtensionIgnored(root: string, ext1: string, ext2: string)
    requires '/' !in root && '.' !in ext1 && '/' !in ext1 && '.' !in ext2 && '/' !in ext2
    requires exists i :: 0 <= i < |root| && root[i] != '.'
    ensures ClaimedRoot(root + "." + ext1) == root
    ensures ClaimedRoot(root + "." + ext1) == ClaimedRoot(root + "." + ext2)
  {
    BasenameWithoutSlash(root + "." + ext1);
    BasenameWithoutSlash(root + "." + ext2);
    SplitExtOfJoined(root, ext1);
    SplitExtOfJoined(root, ext2);
  }

  lemma BasenameWithoutSlash(p: string)
    requires '/' !in p
    ensures Basename(p) == p
  {
  }

  /** The part every candidate shares: the original root, spaces and all, and
      the timestamp. */
  function Stem(filename: string, ts: nat): string {
    SplitExt(filename).0 + "_" + NatToString(ts)
  }

  /** The candidate root with uniquifying suffix `n`. */
  function Candidate(stem: string, n: nat): string {
    stem + "_" + NatToString(n)
  }

  /** Different suffixes give different candidates. */
  lemma CandidateInjective(stem: string, m: nat, n: nat)
    requires Candidate(stem, m) == Candidate(stem, n)
    ensures m == n
  {
    var p := stem + "_";
    assert Candidate(stem, m) == p + NatToString(m);
    assert Candidate(stem, n) == p + NatToString(n);
    assert NatToString(m) == (p + NatToString(m))[|p|..];
    assert NatToString(n) == (p + NatToString(n))[|p|..];
    NatToStringInjective(m, n);
  }

  /** The candidates with suffixes below `n`. */
  function Candidates(stem: string, n: nat): (r: set<string>)
    ensures forall j :: 0 <= j < n ==> Candidate(stem, j) in r
    decreases n
  {
    if n == 0 then {} else Candidates(stem, n - 1) + {Candidate(stem, n - 1)}
  }

  lemma {:induction false} CandidatesSize(stem: string, n: nat)
    ensures |Candidates(stem, n)| == n
    ensures forall x :: x in Candidates(stem, n) ==> exists j :: 0 <= j < n && x == Candidate(stem, j)
    decreases n
  {
    if n > 0 {
      CandidatesSize(stem, n - 1);
      if Candidate(stem, n - 1) in Candidates(stem, n - 1) {
        var j :| 0 <= j < n - 1 && Candidate(stem, n - 1) == Candidate(stem, j);
        CandidateInjective(stem, n - 1, j);
      }
    }
  }

  /** If the first `n` candidates are all claimed, there are at least `n`
      claimed roots; so the search for a free suffix ends. */
  lemma ClaimedBound(roots: set<string>, stem: string, n: nat)
    requires forall j :: 0 <= j < n ==> Candidate(stem, j) in roots
    ensures n <= |roots|
  {
    CandidatesSize(stem, n);
    assert Candidates(stem, n) <= roots by {
      forall x | x in Candidates(stem, n) ensures x in roots {
        var j :| 0 <= j < n && x == Candidate(stem, j);
      }
    }
    CardinalityOfSubset(Candidates(stem, n), roots);
  }

  lemma {:induction false} CardinalityOfSubset(a: set<string>, b: set<string>)
    requires a <= b
    ensures |a| <= |b|
    decreases |a|
  {
    if a != {} {
      var x :| x in a;
      CardinalityOfSubset(a - {x}, b - {x});
    }
  }

  /** The least suffix from `n` on whose candidate is unclaimed. */
  function LeastFreeSuffix(roots: set<string>, stem: string, n: nat): (m: nat)
    requires forall j :: 0 <= j < n ==> Candidate(stem, j) in roots
    ensures n <= m
    ensures Candidate(stem, m) !in roots
    ensures forall j :: 0 <= j < m ==> Candidate(stem, j) in roots
    decreases |roots| - n
  {
    ClaimedBound(roots, stem, n);
    if Candidate(stem, n) !in roots then n
    else
      ClaimedBound(roots, stem, n + 1);
      LeastFreeSuffix(roots, stem, n + 1)
  }

  /** The least free suffix is the only suffix that is free while all below it
      are claimed. */
  lemma LeastFreeSuffixUnique(roots: set<string>, stem: string, m: nat)
    requires Candidate(stem, m) !in roots
    requires forall j :: 0 <= j < m ==> Candidate(stem, j) in roots
    ensures LeastFreeSuffix(roots, stem, 0) == m
  {
    var k := LeastFreeSuffix(roots, stem, 0);
    assert !(k < m) && !(m < k);
  }

  /** `get_uniquified_filename` against the roots claimed so far: the new root
      and the extension without its dot. */
  function UniquifiedFilename(roots: set<string>, filename: string, ts: nat): (r: (string, string))
    ensures r.0 !in roots
    ensures '.' !in r.1
  {
    var stem := Stem(filename, ts);
    (Candidate(stem, LeastFreeSuffix(roots, stem, 0)), RemoveChar(SplitExt(filename).1, '.'))
  }

  /** The root is the original root, the timestamp and the least suffix not
      yet claimed; the extension is the original one without its leading dot. */
  lemma UniquifiedFilenameSpec(roots: set<string>, filename: string, ts: nat)
    ensures exists n: nat ::
              UniquifiedFilename(roots, filename, ts).0
                == SplitExt(filename).0 + "_" + NatToString(ts) + "_" + NatToString(n)
              && forall j :: 0 <= j < n ==> Candidate(Stem(filename, ts), j) in roots
    ensures var ext := SplitExt(filename).1;
            UniquifiedFilename(roots, filename, ts).1 == if ext == [] then [] else ext[1..]
  {
    var stem := Stem(filename, ts);
    var n := LeastFreeSuffix(roots, stem, 0);
    assert UniquifiedFilename(roots, filename, ts).0
             == SplitExt(filename).0 + "_" + NatToString(ts) + "_" + NatToString(n);
    RemoveDotOfExt(SplitExt(filename).1);
  }

  /** Successive claims: the names handed out for `filenames[k]` at clock
      `ts[k]`, each call seeing the roots claimed by the earlier ones, and the
      roots claimed at the end. */
  function Claims(roots: set<string>, filenames: seq<string>, ts: seq<nat>): (r: (seq<(string, string)>, set<string>))
    requires |ts| == |filenames|
    ensures |r.0| == |filenames|
    decreases |filenames|
  {
    if filenames == [] then ([], roots)
    else
      var n := |filenames| - 1;
      var before := Claims(roots, filenames[..n], ts[..n]);
      var name := UniquifiedFilename(before.1, filenames[n], ts[n]);
      (before.0 + [name], before.1 + {name.0})
  }

  /** Earlier claims do not depend on later ones. */
  lemma {:induction false} ClaimsPrefix(roots: set<string>, filenames: seq<string>, ts: seq<nat>, m: nat)
    requires |ts| == |filenames| && m <= |filenames|
    ensures Claims(roots, filenames[..m], ts[..m]).0 == Claims(roots, filenames, ts).0[..m]
    decreases |filenames|
  {
    if m < |filenames| {
      var n := |filenames| - 1;
      assert filenames[..n][..m] == filenames[..m] && ts[..n][..m] == ts[..m];
      ClaimsPrefix(roots, filenames[..n], ts[..n], m);
    } else {
      assert filenames[..m] == filenames && ts[..m] == ts;
    }
  }

  /** The k-th claim is the name handed out for `filenames[k]` against the
      roots claimed by the calls before it. */
  lemma ClaimsAt(roots: set<string>, filenames: seq<string>, ts: seq<nat>, k: nat)
    requires |ts| == |filenames| && k < |filenames|
    ensures Claims(roots, filenames, ts).0[k]
              == UniquifiedFilename(Claims(roots, filenames[..k], ts[..k]).1, filenames[k], ts[k])
  {
    ClaimsPrefix(roots, filenames, ts, k + 1);
    ClaimsStep(roots, filenames, ts, k);
    assert Claims(roots, filenames, ts).0[k] == Claims(roots, filenames[..k + 1], ts[..k + 1]).0[k];
  }

  /** One more call claims the root it hands out. */
  lemma ClaimsStep(roots: set<string>, filenames: seq<string>, ts: seq<nat>, k: nat)
    requires |ts| == |filenames| && k < |filenames|
    ensures var before := Claims(roots, filenames[..k], ts[..k]);
            var name := UniquifiedFilename(before.1, filenames[k], ts[k]);
            Claims(roots, filenames[..k + 1], ts[..k + 1]) == (before.0 + [name], before.1 + {name.0})
  {
    assert filenames[..k + 1][..k] == filenames[..k] && ts[..k + 1][..k] == ts[..k];
  }

  /** Successive claims return roots that are pairwise distinct and distinct
      from every root claimed before the first, even for the same file name;
      the claimed set grows by exactly the roots handed out. */
  lemma {:induction false} ClaimsDistinct(roots: set<string>, filenames: seq<string>, ts: seq<nat>)
    requires |ts| == |filenames|
    ensures forall i :: 0 <= i < |filenames| ==> Claims(roots, filenames, ts).0[i].0 !in roots
    ensures forall i, j :: 0 <= i < j < |filenames| ==>
              Claims(roots, filenames, ts).0[i].0 != Claims(roots, filenames, ts).0[j].0
    ensures forall x :: x in Claims(roots, filenames, ts).1 <==>
              x in roots || exists i :: 0 <= i < |filenames| && x == Claims(roots, filenames, ts).0[i].0
    decreases |filenames|
  {
    if filenames != [] {
      var n := |filenames| - 1;
      var before := Claims(roots, filenames[..n], ts[..n]);
      ClaimsDistinct(roots, filenames[..n], ts[..n]);
      var r := Claims(roots, filenames, ts);
      assert r.0 == before.0 + [r.0[n]];
      assert forall i :: 0 <= i < n ==> r.0[i] == before.0[i];
      assert r.0[n].0 !in before.1;
    }
  }

  class LogseqImageFilenameTransformer {
    /** The roots claimed so far. */
    var existingFilenameRoots: set<string>

    constructor (existingFilenames: seq<string>)
      ensures existingFilenameRoots == ClaimedRoots(existingFilenames)
    {
      existingFilenameRoots := ClaimedRoots(existingFilenames);
    }

    /** `get_uniquified_filename`: probes suffixes 0, 1, 2, ... until the
        candidate is unclaimed; claims nothing. */
    method GetUniquifiedFilename(filename: string, ts: nat) returns (root: string, ext: string)
      ensures (root, ext) == UniquifiedFilename(existingFilenameRoots, filename, ts)
      ensures root !in existingFilenameRoots
    {
      var split := SplitExt(filename);
      var stem := split.0 + "_" + NatToString(ts);
      ext := RemoveChar(split.1, '.');
      var suffix := 0;
      while true
        invariant forall j :: 0 <= j < suffix ==> Candidate(stem, j) in existingFilenameRoots
        decreases |existingFilenameRoots| - suffix
      {
        root := stem + "_" + NatToString(suffix);
        if root !in existingFilenameRoots {
          break;
        }
        ClaimedBound(existingFilenameRoots, stem, suffix + 1);
        suffix := suffix + 1;
      }
      LeastFreeSuffixUnique(existingFilenameRoots, stem, suffix);
    }

    /** `assign_uniquified_filename`: the root found is claimed. */
    method AssignUniquifiedFilename(filename: string, ts: nat) returns (root: string, ext: string)
      modifies this
      ensures (root, ext) == UniquifiedFilename(old(existingFilenameRoots), filename, ts)
      ensures root !in old(existingFilenameRoots)
      ensures existingFilenameRoots == old(existingFilenameRoots) + {root}
    {
      root, ext := GetUniquifiedFilename(filename, ts);
      existingFilenameRoots := existingFilenameRoots + {root};
    }
  }
}
