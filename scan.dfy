/**
 * `globals`: the scan over every 8-byte-aligned file offset of the image.
 * Candidates that fail are skipped, names that are noise are dropped, and
 * what remains is sorted stably by name.
 */
module GlobalScan {
  import opened PeResult
  import opened PeImage
  import opened ApexGlobals
  import opened NameSort

  /** The i-th aligned offset's candidate was read successfully as g, and g's name is not noise. */
  predicate Keeps(img: Image, i: nat, g: GlobalVar) {
    Global(img, 8 * i) == Ok(g) && !IsNoise(g.tyName)
  }

  /**
   * The number of offsets the scan tries: one per whole 8-byte slot of the
   * buffer. Every tried offset 8 * i has 8 bytes of buffer from it on, and
   * the first untried one does not.
   */
  function Slots(img: Image): (n: nat)
    ensures 8 * n <= |img.bytes| < 8 * n + 8
  {
    |img.bytes| / 8
  }

  /** The results of reading the first n aligned offsets, in scan order. */
  function Candidates(img: Image, n: nat): (cs: seq<Result<GlobalVar>>)
    ensures |cs| == n
  {
    if n == 0 then [] else Candidates(img, n - 1) + [Global(img, 8 * (n - 1))]
  }

  /** The i-th candidate is the read at offset 8 * i. */
  lemma {:induction false} CandidateAt(img: Image, n: nat, i: nat)
    requires i < n
    ensures Candidates(img, n)[i] == Global(img, 8 * i)
  {
    if i < n - 1 {
      CandidateAt(img, n - 1, i);
    }
  }

  /** The entries a sequence of reads contributes: the successful ones whose names are not noise, in order. */
  function KeptOf(cs: seq<Result<GlobalVar>>): seq<GlobalVar> {
    if cs == [] then []
    else
      var c := cs[|cs| - 1];
      KeptOf(cs[..|cs| - 1]) + (if c.Ok? && !IsNoise(c.value.tyName) then [c.value] else [])
  }

  /** The entries the scan has collected after trying the first n aligned offsets, in scan order. */
  function Kept(img: Image, n: nat): seq<GlobalVar> {
    KeptOf(Candidates(img, n))
  }

  /** An entry is kept exactly when some read yields it and its name is not noise. */
  lemma {:induction false} KeptOfMembers(cs: seq<Result<GlobalVar>>, g: GlobalVar)
    ensures g in KeptOf(cs) <==> exists i :: 0 <= i < |cs| && cs[i] == Ok(g) && !IsNoise(g.tyName)
  {
    if cs != [] {
      var init := cs[..|cs| - 1];
      KeptOfMembers(init, g);
      if exists i :: 0 <= i < |cs| && cs[i] == Ok(g) && !IsNoise(g.tyName) {
        var i :| 0 <= i < |cs| && cs[i] == Ok(g) && !IsNoise(g.tyName);
        if i < |cs| - 1 {
          assert init[i] == cs[i];
        }
      }
      if g in KeptOf(init) {
        var i :| 0 <= i < |init| && init[i] == Ok(g) && !IsNoise(g.tyName);
        assert cs[i] == init[i];
      }
    }
  }

  /** An entry is collected exactly when some tried offset yields it and its name is not noise. */
  lemma KeptMembers(img: Image, n: nat, g: GlobalVar)
    ensures g in Kept(img, n) <==> exists i :: 0 <= i < n && Keeps(img, i, g)
  {
    KeptOfMembers(Candidates(img, n), g);
    if g in Kept(img, n) {
      var i :| 0 <= i < n && Candidates(img, n)[i] == Ok(g) && !IsNoise(g.tyName);
      CandidateAt(img, n, i);
      assert Keeps(img, i, g);
    }
    if exists i :: 0 <= i < n && Keeps(img, i, g) {
      var i :| 0 <= i < n && Keeps(img, i, g);
      CandidateAt(img, n, i);
      assert Candidates(img, n)[i] == Ok(g);
    }
  }

  /** Reading one more offset appends its entry when it is kept. */
  lemma KeptStep(img: Image, i: nat, r: Result<GlobalVar>)
    requires r == Global(img, 8 * i)
    ensures Kept(img, i + 1) == Kept(img, i) + (if r.Ok? && !IsNoise(r.value.tyName) then [r.value] else [])
  {
    assert Candidates(img, i + 1) == Candidates(img, i) + [r];
    KeptOfSnoc(Candidates(img, i), r);
  }

  /** One more read appends its entry when it is kept. */
  lemma KeptOfSnoc(cs: seq<Result<GlobalVar>>, c: Result<GlobalVar>)
    ensures KeptOf(cs + [c]) == KeptOf(cs) + (if c.Ok? && !IsNoise(c.value.tyName) then [c.value] else [])
  {
    assert (cs + [c])[..|cs|] == cs;
  }

  /** The scan loop: tries every aligned offset in order and collects the kept entries. */
  method Scan(img: Image) returns (found: seq<GlobalVar>)
    ensures found == Kept(img, Slots(img))
  {
    found := [];
    for i := 0 to |img.bytes| / 8
      invariant found == Kept(img, i)
    {
      var r := Global(img, 8 * i);
      KeptStep(img, i, r);
      if r.Ok? && !IsNoise(r.value.tyName) {
        found := found + [r.value];
      }
    }
  }

  /**
   * `globals`: scans, filters and sorts. The result is sorted by name, holds
   * the collected entries name by name in scan order (so it is their stable
   * sort), and holds exactly the collected entries.
   */
  method Globals(img: Image) returns (result: seq<GlobalVar>)
    ensures Sorted(result)
    ensures forall name :: WithName(result, name) == WithName(Kept(img, Slots(img)), name)
    ensures multiset(result) == multiset(Kept(img, Slots(img)))
  {
    var found := Scan(img);
    var a := new GlobalVar[|found|](k requires 0 <= k < |found| => found[k]);
    assert a[..] == found;
    SortByName(a);
    result := a[..];
    SameNamesPermutation(result, found);
  }

  /** An entry is in the result of `globals` exactly when some tried offset yields it and its name is not noise. */
  lemma GlobalsMembers(img: Image, result: seq<GlobalVar>, g: GlobalVar)
    requires multiset(result) == multiset(Kept(img, Slots(img)))
    ensures g in result <==> exists i :: 0 <= i < Slots(img) && Keeps(img, i, g)
  {
    assert g in result <==> g in multiset(result);
    KeptMembers(img, Slots(img), g);
  }

  /** No collected entry's name contains "ConVar", "ConCommand" or "type_info". */
  lemma KeptHasNoNoise(img: Image, n: nat, g: GlobalVar)
    requires g in Kept(img, n)
    ensures !IsNoise(g.tyName)
  {
    KeptMembers(img, n, g);
  }
}
