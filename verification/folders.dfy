/**
 * `get_image_folder` in imagen3_server.py: choose the output folder.
 *
 * The file system is the set of paths that exist. The base name is used if it
 * is free; otherwise the first free name among base + "1", base + "2", ...,
 * base + str(max_index); otherwise the call fails. Creating the folder adds its
 * name to the set.
 */
module Folders {
  import opened Options
  import opened Text

  /** The `ValueError` raised when every candidate name is taken. */
  datatype FolderError = TooManyFolders(maxIndex: int)

  /** The default arguments: `base_name="images"`, `max_index=100`. */
  const DefaultBase := "images"
  const DefaultMaxIndex := 100

  /** `f"{base_name}{i}"`. */
  function Candidate(base: string, i: nat): (c: string)
    ensures |c| > |base| && c[..|base|] == base
    ensures AllDigits(c[|base|..])
  {
    base + Decimal(i)
  }

  /**
   * The first index in lo..hi whose candidate name is free, if there is one;
   * every index before it is taken.
   */
  function FirstFree(existing: set<string>, base: string, lo: nat, hi: int): (r: Option<nat>)
    ensures r.Some? ==> lo <= r.value <= hi && Candidate(base, r.value) !in existing
    ensures r.Some? ==> forall j :: lo <= j < r.value ==> Candidate(base, j) in existing
    ensures r.None? <==> forall j :: lo <= j <= hi ==> Candidate(base, j) in existing
    decreases hi - lo
  {
    if lo > hi then None
    else if Candidate(base, lo) !in existing then Some(lo)
    else FirstFree(existing, base, lo + 1, hi)
  }

  /** The folder `get_image_folder` picks, or its error. */
  function Choose(existing: set<string>, base: string, maxIndex: int): (r: Result<string, FolderError>)
    ensures r.Ok? ==> r.value !in existing && |base| <= |r.value| && r.value[..|base|] == base
    ensures r.Err? ==> base in existing && r == Err(TooManyFolders(maxIndex))
  {
    if base !in existing then Ok(base)
    else match FirstFree(existing, base, 1, maxIndex)
      case Some(i) => Ok(Candidate(base, i))
      case None => Err(TooManyFolders(maxIndex))
  }

  /**
   * `get_image_folder(base_name, max_index)`: the chosen folder, and the set of
   * existing paths after it was created.
   */
  method GetImageFolder(existing: set<string>, base: string, maxIndex: int)
    returns (r: Result<string, FolderError>, after: set<string>)
    ensures r == Choose(existing, base, maxIndex)
    ensures r.Ok? ==> r.value !in existing && after == existing + {r.value}
    ensures r.Err? ==> after == existing
  {
    if base !in existing {
      return Ok(base), existing + {base};
    }
    var i := 1;
    while i <= maxIndex
      invariant 1 <= i
      invariant FirstFree(existing, base, 1, maxIndex) == FirstFree(existing, base, i, maxIndex)
      decreases maxIndex - i
    {
      var folder := base + Decimal(i);
      if folder !in existing {
        return Ok(folder), existing + {folder};
      }
      i := i + 1;
    }
    return Err(TooManyFolders(maxIndex)), existing;
  }

  // ---------------------------------------------------------------------------
  // What the choice promises

  /**
   * The choice is the first free name in the order base, base + "1", ...,
   * base + str(max_index): every name before it is taken, and it fails exactly
   * when all of them are.
   */
  lemma ChooseIsFirstFree(existing: set<string>, base: string, maxIndex: int)
    ensures Choose(existing, base, maxIndex) == Ok(base) <==> base !in existing
    ensures Choose(existing, base, maxIndex).Ok? ==> Choose(existing, base, maxIndex).value !in existing
    ensures Choose(existing, base, maxIndex).Err?
        <==> base in existing && forall i :: 1 <= i <= maxIndex ==> Candidate(base, i) in existing
    ensures base in existing && Choose(existing, base, maxIndex).Ok? ==>
      exists i :: 1 <= i <= maxIndex && Choose(existing, base, maxIndex).value == Candidate(base, i)
             && forall j :: 1 <= j < i ==> Candidate(base, j) in existing
  {
    match FirstFree(existing, base, 1, maxIndex)
    case Some(i) =>
      assert |Candidate(base, i)| > |base|;
    case None =>
  }

  /** Numbered names differ from the base and from each other. */
  lemma CandidatesDistinct(base: string, i: nat, j: nat)
    ensures Candidate(base, i) != base
    ensures Candidate(base, i) == Candidate(base, j) ==> i == j
  {
    if Candidate(base, i) == Candidate(base, j) {
      assert Decimal(i) == Candidate(base, i)[|base|..];
      assert Decimal(j) == Candidate(base, j)[|base|..];
      DecimalInjective(i, j);
    }
  }

  /** The numbered names base + "1" .. base + str(n). */
  function Candidates(base: string, n: nat): (c: set<string>)
    ensures forall i :: 1 <= i <= n ==> Candidate(base, i) in c
  {
    if n == 0 then {} else Candidates(base, n - 1) + {Candidate(base, n)}
  }

  lemma {:induction false} CandidatesCount(base: string, n: nat)
    ensures |Candidates(base, n)| == n
    ensures base !in Candidates(base, n)
  {
    if n > 0 {
      CandidatesCount(base, n - 1);
      CandidatesDistinct(base, n, n);
      if Candidate(base, n) in Candidates(base, n - 1) {
        var i := CandidateIndex(base, n - 1, Candidate(base, n));
        CandidatesDistinct(base, i, n);
      }
    }
  }

  /** The index behind a numbered name. */
  lemma {:induction false} CandidateIndex(base: string, n: nat, name: string) returns (i: nat)
    requires name in Candidates(base, n)
    ensures 1 <= i <= n && name == Candidate(base, i)
  {
    if name == Candidate(base, n) {
      i := n;
    } else {
      i := CandidateIndex(base, n - 1, name);
    }
  }

  /**
   * The call fails only when at least `max_index + 1` paths exist: the base and
   * every numbered name. With fewer existing paths a folder is always found.
   */
  lemma FailureNeedsAllNamesTaken(existing: set<string>, base: string, maxIndex: nat)
    requires Choose(existing, base, maxIndex).Err?
    ensures |existing| >= maxIndex + 1
  {
    ChooseIsFirstFree(existing, base, maxIndex);
    CandidatesCount(base, maxIndex);
    var taken := Candidates(base, maxIndex) + {base};
    forall name | name in taken
      ensures name in existing
    {
      if name != base {
        var i := CandidateIndex(base, maxIndex, name);
      }
    }
    assert taken <= existing;
    assert |taken| == maxIndex + 1;
    SubsetSize(taken, existing);
  }

  lemma {:induction false} SubsetSize<T>(a: set<T>, b: set<T>)
    requires a <= b
    ensures |a| <= |b|
    decreases |a|
  {
    if a != {} {
      var x :| x in a;
      SubsetSize(a - {x}, b - {x});
    }
  }

  /** Two calls in a row never pick the same folder: the first one now exists. */
  lemma SecondCallPicksAnotherFolder(existing: set<string>, base: string, maxIndex: int)
    requires Choose(existing, base, maxIndex).Ok?
    ensures var first := Choose(existing, base, maxIndex).value;
      var second := Choose(existing + {first}, base, maxIndex);
      second.Ok? ==> second.value != first
  {
    var first := Choose(existing, base, maxIndex).value;
    ChooseIsFirstFree(existing + {first}, base, maxIndex);
  }

  /**
   * `get_image_folder()` with its defaults: "images" itself while it is free,
   * and a `ValueError` only once at least 101 paths exist.
   */
  lemma DefaultFolder(existing: set<string>)
    ensures DefaultBase !in existing ==> Choose(existing, DefaultBase, DefaultMaxIndex) == Ok("images")
    ensures Choose(existing, DefaultBase, DefaultMaxIndex).Err? ==> |existing| >= 101
  {
    if Choose(existing, DefaultBase, DefaultMaxIndex).Err? {
      FailureNeedsAllNamesTaken(existing, DefaultBase, DefaultMaxIndex);
    }
  }
}
