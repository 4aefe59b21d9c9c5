/**
 What `loadImages` (main.go:99-134) hands to the packer: one rectangle per
 file, with identity `index + 1` assigned in file order, then sorted in
 place by descending height.

 The concurrent decoding is reduced to its result: the decoded size or the
 failure of every file is a parameter, and the files are visited one after
 another. Which failure is reported when several files fail depends on the
 order the goroutines finish in, so the contract only says that the
 reported error is one of theirs.
 */
module HeightOrder {
  import opened Geometry

  /** The decoded size of one file, or why it could not be opened or decoded. */
  datatype Decoded = Image(width: nat, height: nat) | Failure(cause: string)

  /** The error `loadImages` returns: the file that failed and the cause. */
  datatype LoadError = LoadError(file: string, cause: string)

  datatype Result<T, E> = Ok(value: T) | Err(error: E)

  /** Heights never increase along the sequence. */
  ghost predicate SortedByHeight(rects: seq<Rect>)
  {
    forall i, j :: 0 <= i < j < |rects| ==> rects[i].height >= rects[j].height
  }

  /** The rectangles before sorting: the i-th file becomes the rectangle with identity i + 1. */
  function Ingest(decoded: seq<Decoded>): (rects: seq<Rect>)
    requires forall i :: 0 <= i < |decoded| ==> decoded[i].Image?
  {
    seq(|decoded|, i requires 0 <= i < |decoded| => Rect(i + 1, decoded[i].width, decoded[i].height))
  }

  /** The identities assigned before sorting are exactly 1..n, each once. */
  lemma IngestIds(decoded: seq<Decoded>)
    requires forall i :: 0 <= i < |decoded| ==> decoded[i].Image?
    ensures DistinctIds(Ingest(decoded))
    ensures forall n :: n in Ids(Ingest(decoded)) <==> 1 <= n <= |decoded|
  {
    var rects := Ingest(decoded);
    forall n | 1 <= n <= |decoded|
      ensures n in Ids(rects)
    {
      assert rects[n - 1].id == n;
    }
  }

  /** A rectangle whose identity no other element shares occurs exactly once. */
  lemma DistinctOccursOnce(s: seq<Rect>, i: nat)
    requires DistinctIds(s) && i < |s|
    ensures multiset(s)[s[i]] == 1
  {
    assert s == s[..i] + [s[i]] + s[i + 1..];
    assert s[i] !in s[..i] by {
      forall j | 0 <= j < i ensures s[..i][j] != s[i] {
        assert s[j].id != s[i].id;
      }
    }
    assert s[i] !in s[i + 1..] by {
      forall k | i < k < |s| ensures s[k] != s[i] {
        assert s[i].id != s[k].id;
      }
    }
  }

  /** An element occurring at two positions occurs at least twice. */
  lemma OccursTwice(t: seq<Rect>, i: nat, j: nat)
    requires i < j < |t|
    ensures multiset(t)[t[i]] >= (if t[i] == t[j] then 2 else 1)
  {
    assert t == t[..j] + [t[j]] + t[j + 1..];
    assert t[..j][i] == t[i];
  }

  /** Reordering keeps the set of identities and keeps them distinct. */
  lemma PermutationKeepsIds(s: seq<Rect>, t: seq<Rect>)
    requires multiset(s) == multiset(t)
    ensures Ids(s) == Ids(t)
    ensures DistinctIds(s) ==> DistinctIds(t)
  {
    forall x | x in Ids(s) ensures x in Ids(t) {
      var i :| 0 <= i < |s| && s[i].id == x;
      assert s[i] in multiset(t);
      var j :| 0 <= j < |t| && t[j] == s[i];
    }
    forall x | x in Ids(t) ensures x in Ids(s) {
      var j :| 0 <= j < |t| && t[j].id == x;
      assert t[j] in multiset(s);
      var i :| 0 <= i < |s| && s[i] == t[j];
    }
    if DistinctIds(s) {
      forall i, j | 0 <= i < j < |t| ensures t[i].id != t[j].id {
        assert t[i] in multiset(s) && t[j] in multiset(s);
        var p :| 0 <= p < |s| && s[p] == t[i];
        var q :| 0 <= q < |s| && s[q] == t[j];
        DistinctOccursOnce(s, p);
        OccursTwice(t, i, j);
      }
    }
  }

  /** Heights never increase over `a[0..n)`. */
  ghost predicate PrefixSorted(a: array<Rect>, n: int)
    requires 0 <= n <= a.Length
    reads a
  {
    SortedByHeight(a[..n])
  }

  /** Exchange `a[j - 1]` and `a[j]`. */
  method SwapDown(a: array<Rect>, j: int)
    requires 0 < j < a.Length
    modifies a
    ensures a[j - 1] == old(a[j]) && a[j] == old(a[j - 1])
    ensures forall k :: 0 <= k < a.Length && k != j - 1 && k != j ==> a[k] == old(a[k])
    ensures multiset(a[..]) == multiset(old(a[..]))
  {
    ghost var prev := a[..];
    a[j - 1], a[j] := a[j], a[j - 1];
    assert a[..] == prev[j - 1 := prev[j]][j := prev[j - 1]];
  }

  /** One pass of the insertion sort: sink `a[i]` into the sorted prefix `a[0..i)`. */
  method Insert(a: array<Rect>, i: int)
    requires 0 <= i < a.Length && PrefixSorted(a, i)
    modifies a
    ensures PrefixSorted(a, i + 1)
    ensures forall k :: i < k < a.Length ==> a[k] == old(a[k])
    ensures multiset(a[..]) == multiset(old(a[..]))
  {
    var j := i;
    while j > 0 && a[j - 1].height < a[j].height
      invariant 0 <= j <= i
      invariant forall p, q :: 0 <= p < q <= i && q != j ==> a[p].height >= a[q].height
      invariant forall k :: i < k < a.Length ==> a[k] == old(a[k])
      invariant multiset(a[..]) == multiset(old(a[..]))
    {
      SwapDown(a, j);
      j := j - 1;
    }
  }

  /**
   The in-place sort of `loadImages`: afterwards heights never increase
   and the array holds the same rectangles. The order among equal heights
   is not specified, as the library sort used is not stable.
   */
  method SortByHeight(a: array<Rect>)
    modifies a
    ensures SortedByHeight(a[..])
    ensures multiset(a[..]) == multiset(old(a[..]))
  {
    var i := 0;
    while i < a.Length
      invariant 0 <= i <= a.Length
      invariant PrefixSorted(a, i)
      invariant multiset(a[..]) == multiset(old(a[..]))
    {
      Insert(a, i);
      i := i + 1;
    }
  }

  /**
   `loadImages`: every file is decoded into the slot of its index; if any
   file failed, one failure is returned and no rectangles; otherwise the
   rectangles, identities 1..n, sorted by descending height.
   */
  method LoadImages(files: seq<string>, decoded: seq<Decoded>) returns (res: Result<seq<Rect>, LoadError>)
    requires |files| == |decoded|
    ensures res.Err? <==> exists i :: 0 <= i < |decoded| && decoded[i].Failure?
    ensures res.Err? ==> exists i :: 0 <= i < |decoded| && decoded[i].Failure? &&
                                     res.error == LoadError(files[i], decoded[i].cause)
    ensures res.Ok? ==> (forall i :: 0 <= i < |decoded| ==> decoded[i].Image?) &&
                        multiset(res.value) == multiset(Ingest(decoded))
    ensures res.Ok? ==> SortedByHeight(res.value)
    ensures res.Ok? ==> DistinctIds(res.value) &&
                        forall n :: n in Ids(res.value) <==> 1 <= n <= |files|
  {
    var rectangles := new Rect[|files|](_ => Rect(0, 0, 0));
    var failure: LoadError := LoadError("", "");
    var failed := false;
    for i := 0 to |files|
      invariant failed <==> exists j :: 0 <= j < i && decoded[j].Failure?
      invariant failed ==> exists j :: 0 <= j < i && decoded[j].Failure? && failure == LoadError(files[j], decoded[j].cause)
      invariant forall j :: 0 <= j < i && decoded[j].Image? ==>
                  rectangles[j] == Rect(j + 1, decoded[j].width, decoded[j].height)
    {
      match decoded[i]
      case Failure(cause) =>
        if !failed {
          failure := LoadError(files[i], cause);
          failed := true;
        }
      case Image(width, height) =>
        rectangles[i] := Rect(i + 1, width, height);
    }
    if failed {
      return Err(failure);
    }
    assert rectangles[..] == Ingest(decoded);
    IngestIds(decoded);
    ghost var ingested := rectangles[..];
    SortByHeight(rectangles);
    PermutationKeepsIds(ingested, rectangles[..]);
    res := Ok(rectangles[..]);
  }
}
