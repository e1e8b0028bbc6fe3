/** How the first uploader names a stored file: a client-supplied name that is free in the
    shared folder is kept; otherwise `stem_1.ext`, `stem_2.ext`, ... are tried in turn and
    the first free one is taken. */
module Naming {
  import opened Paths
  import opened Posix
  import opened Folders

  /** The k-th renaming of a name: `${stem}_${k}${ext}`. */
  function Candidate(original: string, k: nat): string
  {
    BaseName(original, Ext(original)) + "_" + Decimal(k) + Ext(original)
  }

  /** A candidate is the client's name with `_k` put in front of its extension. */
  lemma CandidateShape(original: string, k: nat)
    ensures var ext := Ext(original);
      Candidate(original, k) == original[..|original| - |ext|] + "_" + Decimal(k) + ext
  {
    StemAndExt(original);
    var ext := Ext(original);
    var stem := BaseName(original, ext);
    assert (stem + ext)[..|original| - |ext|] == stem;
  }

  /** No counter is ever reused: distinct counters give distinct candidates. */
  lemma CandidateInjective(original: string, j: nat, k: nat)
    requires j != k
    ensures Candidate(original, j) != Candidate(original, k)
  {
    var stem, ext := BaseName(original, Ext(original)), Ext(original);
    var cj, ck := Candidate(original, j), Candidate(original, k);
    if cj == ck {
      var lo := |stem| + 1;
      assert cj == (stem + "_") + Decimal(j) + ext;
      assert ck == (stem + "_") + Decimal(k) + ext;
      assert |Decimal(j)| == |Decimal(k)|;
      assert cj[lo..|cj| - |ext|] == Decimal(j);
      assert ck[lo..|ck| - |ext|] == Decimal(k);
      DecimalInjective(j, k);
      assert false;
    }
  }

  /** A renaming of a directory entry's name is again a name a directory can hold. */
  lemma CandidateComponent(original: string, k: nat)
    requires Component(original)
    ensures Component(Candidate(original, k))
  {
    CandidateShape(original, k);
    var ext := Ext(original);
    var stem := original[..|original| - |ext|];
    var c := Candidate(original, k);
    assert c == stem + "_" + Decimal(k) + ext;
    forall i | 0 <= i < |c| ensures c[i] != '/' {
      if i < |stem| {
        assert c[i] == original[i];
      } else if i > |stem| && i < |stem| + 1 + |Decimal(k)| {
        assert c[i] == Decimal(k)[i - |stem| - 1];
      } else if i >= |stem| + 1 + |Decimal(k)| {
        assert c[i] == ext[i - |stem| - 1 - |Decimal(k)|] == original[|stem| + (i - |stem| - 1 - |Decimal(k)|)];
      }
    }
    assert c[|stem|] == '_';
  }

  /** The longest name in a folder. */
  function MaxNameLength(f: Folder): (m: nat)
    ensures forall n :: Has(f, n) ==> |n| <= m
  {
    if f == [] then 0
    else
      var rest := MaxNameLength(f[1..]);
      if |f[0].name| > rest then |f[0].name| else rest
  }

  /** Candidates whose counter has more digits than the longest name are always free; so a
      present candidate has a counter below 10 to the power of that length. */
  lemma PresentCandidateBound(f: Folder, original: string, k: nat)
    ensures Has(f, Candidate(original, k)) ==> k < Pow10(MaxNameLength(f))
  {
    if k >= Pow10(MaxNameLength(f)) {
      DecimalLength(k, MaxNameLength(f));
    }
  }

  /** Every counter in [lo, hi) has its candidate taken. */
  predicate TakenBetween(f: Folder, original: string, lo: nat, hi: nat)
  {
    forall j :: lo <= j < hi ==> Has(f, Candidate(original, j))
  }

  /** The least counter from k onwards whose candidate is free. */
  function FirstFree(f: Folder, original: string, k: nat): (r: nat)
    ensures k <= r
    ensures !Has(f, Candidate(original, r))
    ensures TakenBetween(f, original, k, r)
    decreases Pow10(MaxNameLength(f)) - k
  {
    PresentCandidateBound(f, original, k);
    if !Has(f, Candidate(original, k)) then k
    else
      var r := FirstFree(f, original, k + 1);
      assert TakenBetween(f, original, k, r) by {
        forall j | k <= j < r ensures Has(f, Candidate(original, j)) {
          if j > k {
            assert TakenBetween(f, original, k + 1, r);
          }
        }
      }
      r
  }

  /** The name the collision-safe uploader stores a file under. */
  function FreeName(f: Folder, original: string): string
  {
    if !Has(f, original) then original else Candidate(original, FirstFree(f, original, 1))
  }

  /** The stored name is never one the folder already holds; it is the client's name when
      that is free, and otherwise the candidate with the least counter from 1 whose name is
      free, every smaller counter's candidate being taken. */
  lemma FreeNameSpec(f: Folder, original: string)
    ensures !Has(f, FreeName(f, original))
    ensures !Has(f, original) ==> FreeName(f, original) == original
    ensures Has(f, original) ==>
      exists k :: k >= 1 && FreeName(f, original) == Candidate(original, k) &&
        forall j :: 1 <= j < k ==> Has(f, Candidate(original, j))
  {
    if Has(f, original) {
      var k := FirstFree(f, original, 1);
      assert FreeName(f, original) == Candidate(original, k);
    }
  }

  /** The stored name of a directory entry's name is again a name a directory can hold. */
  lemma FreeNameComponent(f: Folder, original: string)
    requires Component(original)
    ensures Component(FreeName(f, original))
  {
    if Has(f, original) {
      CandidateComponent(original, FirstFree(f, original, 1));
    }
  }

  /** A counter whose candidate is free while all smaller ones are taken is the one chosen. */
  lemma {:induction false} FirstFreeIsLeast(f: Folder, original: string, k: nat, n: nat)
    requires k <= n
    requires !Has(f, Candidate(original, n))
    requires forall j :: k <= j < n ==> Has(f, Candidate(original, j))
    ensures FirstFree(f, original, k) == n
    decreases n - k
  {
    if k < n {
      assert Has(f, Candidate(original, k));
      FirstFreeIsLeast(f, original, k + 1, n);
    }
  }

  /** The n-th collision: when the name and its first n - 1 renamings are taken and the n-th
      is free, the upload is stored under `stem_n.ext`. */
  lemma NthCollision(f: Folder, original: string, n: nat)
    requires n >= 1
    requires Has(f, original)
    requires forall j :: 1 <= j < n ==> Has(f, Candidate(original, j))
    requires !Has(f, Candidate(original, n))
    ensures FreeName(f, original) == Candidate(original, n)
  {
    FirstFreeIsLeast(f, original, 1, n);
  }

  /** Uploading the same name again after a renamed copy was stored moves on to a larger
      counter: the renamings of one name come out without reuse. */
  lemma {:induction false} NextCollisionAdvances(f: Folder, original: string, kind: Kind)
    requires Has(f, original)
    ensures var stored := FreeName(f, original);
      var g := Put(f, DirEntry(stored, kind));
      FirstFree(g, original, 1) > FirstFree(f, original, 1)
  {
    var k := FirstFree(f, original, 1);
    var g := Put(f, DirEntry(Candidate(original, k), kind));
    assert TakenBetween(g, original, 1, k + 1) by {
      forall j | 1 <= j <= k
        ensures Has(g, Candidate(original, j))
      {
        if j < k {
          assert Has(f, Candidate(original, j));
        }
      }
    }
    var k' := FirstFree(g, original, 1);
    assert !Has(g, Candidate(original, k'));
  }

  /** The filename callback of the collision-safe uploader: existsSync on the client's name,
      and when it is taken the do-while loop that tries `${name}_${counter}${ext}` for
      counter = 1, 2, ... until the name is free. */
  method PickName(f: Folder, original: string) returns (name: string)
    ensures name == FreeName(f, original)
    ensures !Has(f, name)
  {
    if Has(f, original) {
      var ext := Ext(original);
      var stem := BaseName(original, ext);
      var counter := 1;
      name := stem + "_" + Decimal(counter) + ext;
      counter := counter + 1;
      while Has(f, name)
        invariant counter >= 2
        invariant name == Candidate(original, counter - 1)
        invariant TakenBetween(f, original, 1, counter - 1)
        decreases Pow10(MaxNameLength(f)) - counter
      {
        ghost var taken := counter - 1;
        PresentCandidateBound(f, original, taken);
        assert TakenBetween(f, original, 1, counter) by {
          assert Has(f, Candidate(original, taken));
        }
        name := stem + "_" + Decimal(counter) + ext;
        counter := counter + 1;
      }
      FirstFreeIsLeast(f, original, 1, counter - 1);
    } else {
      name := original;
    }
  }

  /** The first renaming of "a.txt" is "a_1.txt". */
  lemma FirstCollisionExample()
    ensures FreeName([DirEntry("a.txt", RegularFile(10))], "a.txt") == "a_1.txt"
  {
    var f := [DirEntry("a.txt", RegularFile(10))];
    assert LastDot("a.txt") == 1 by {
      assert "a.txt"[..4] == "a.tx";
      assert "a.tx"[..3] == "a.t";
      assert "a.t"[..2] == "a.";
    }
    assert Ext("a.txt") == ".txt";
    assert BaseName("a.txt", ".txt") == "a";
    assert Decimal(1) == "1";
    assert Candidate("a.txt", 1) == "a_1.txt";
    assert Has(f, "a.txt");
    assert !Has(f, "a_1.txt") by {
      assert f[0].name != "a_1.txt";
      assert f[1..] == [];
    }
    NthCollision(f, "a.txt", 1);
  }
}
