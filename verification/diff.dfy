/**
 * The editor's text-diff reducer (`calcDiff`): turns an old and a new text
 * into one replacement `{pos, del, ins}` by stripping the longest common
 * prefix and then a common suffix that may not overlap that prefix.
 *
 * Texts are sequences of code points: the source spreads each string into
 * its code points (`[...s]`) before comparing, so a text here is already that
 * sequence. Code points are compared only for equality, so the element type
 * is left generic.
 */
module Diff {
  import opened Base

  /** At code-point offset `pos` of the oldval text remove `del` code points, then insert `ins`. */
  datatype DiffResult<T> = DiffResult(pos: nat, del: nat, ins: seq<T>)

  /** JavaScript array indexing: an index outside the array, negative ones included, reads `undefined`. */
  function At<T>(s: seq<T>, i: int): (r: Option<T>)
    ensures r.Some? <==> 0 <= i < |s|
    ensures r.Some? ==> r.value == s[i]
  {
    if 0 <= i < |s| then Some(s[i]) else None
  }

  /** A replacement fits the oldval text when the deleted span lies inside it. */
  predicate Fits<T>(oldval: seq<T>, d: DiffResult<T>)
  {
    d.pos + d.del <= |oldval|
  }

  /** What a consumer does with a replacement: splice it into the oldval text. */
  function Apply<T>(oldval: seq<T>, d: DiffResult<T>): seq<T>
    requires Fits(oldval, d)
  {
    oldval[..d.pos] + d.ins + oldval[d.pos + d.del..]
  }

  /**
   * Reference definition: the length of the longest common prefix, by
   * recursion from the front.
   */
  function CommonPrefix<T(==)>(a: seq<T>, b: seq<T>): (n: nat)
    ensures n <= |a| && n <= |b|
    ensures a[..n] == b[..n]
    ensures n < |a| && n < |b| ==> a[n] != b[n]
  {
    if |a| == 0 || |b| == 0 || a[0] != b[0] then 0
    else
      var n' := CommonPrefix(a[1..], b[1..]);
      assert a[..n' + 1] == [a[0]] + a[1..][..n'];
      assert b[..n' + 1] == [b[0]] + b[1..][..n'];
      1 + n'
  }

  /** The `i`-th element counted from the end, the last one being the first. */
  function FromEnd<T>(s: seq<T>, i: nat): T
    requires 1 <= i <= |s|
  {
    s[|s| - i]
  }

  /** The last `n` elements of `a` and of `b` agree. */
  ghost predicate SuffixAgrees<T>(a: seq<T>, b: seq<T>, n: nat)
    requires n <= |a| && n <= |b|
  {
    forall i :: 1 <= i <= n ==> FromEnd(a, i) == FromEnd(b, i)
  }

  /**
   * Reference definition: the length of the longest common suffix of `a` and
   * `b` that leaves the first `start` elements of both untouched, by recursion
   * from the back.
   */
  function CommonSuffix<T(==)>(a: seq<T>, b: seq<T>, start: nat): (n: nat)
    requires start <= |a| && start <= |b|
    ensures start + n <= |a| && start + n <= |b|
    ensures SuffixAgrees(a, b, n)
    ensures start + n < |a| && start + n < |b| ==> a[|a| - 1 - n] != b[|b| - 1 - n]
    decreases |a|
  {
    if start == |a| || start == |b| || a[|a| - 1] != b[|b| - 1] then 0
    else
      var a', b' := a[..|a| - 1], b[..|b| - 1];
      var n' := CommonSuffix(a', b', start);
      assert forall i | 2 <= i <= n' + 1 :: FromEnd(a, i) == FromEnd(a', i - 1) && FromEnd(b, i) == FromEnd(b', i - 1);
      n' + 1
  }

  /** Agreeing suffixes, stated element by element, are equal slices. */
  lemma SuffixAgreesSlices<T>(a: seq<T>, b: seq<T>, n: nat)
    requires n <= |a| && n <= |b| && SuffixAgrees(a, b, n)
    ensures a[|a| - n..] == b[|b| - n..]
  {
    var sa, sb := a[|a| - n..], b[|b| - n..];
    forall k | 0 <= k < n
      ensures sa[k] == sb[k]
    {
      assert sa[k] == FromEnd(a, n - k);
      assert sb[k] == FromEnd(b, n - k);
    }
  }

  /**
   * Reference definition of the whole reducer: the no-op for equal texts,
   * otherwise the middle left after removing the common prefix and the
   * non-overlapping common suffix.
   */
  function Diff<T(==)>(oldval: seq<T>, newval: seq<T>): DiffResult<T>
  {
    if oldval == newval then DiffResult(0, 0, [])
    else
      var s := CommonPrefix(oldval, newval);
      var e := CommonSuffix(oldval, newval, s);
      DiffResult(s, |oldval| - s - e, newval[s..|newval| - e])
  }

  /** Any prefix length that agrees and cannot be extended is the longest one: it follows from the two facts `CommonPrefix` ensures. */
  lemma CommonPrefixUnique<T>(a: seq<T>, b: seq<T>, n: nat)
    requires n <= |a| && n <= |b| && a[..n] == b[..n]
    requires n == |a| || n == |b| || a[n] != b[n]
    ensures n == CommonPrefix(a, b)
  {
  }

  /** Any bounded suffix length that agrees and cannot be extended is the one `CommonSuffix` gives. */
  lemma {:induction false} CommonSuffixUnique<T>(a: seq<T>, b: seq<T>, start: nat, n: nat)
    requires start + n <= |a| && start + n <= |b|
    requires SuffixAgrees(a, b, n)
    requires start + n == |a| || start + n == |b| || a[|a| - 1 - n] != b[|b| - 1 - n]
    ensures n == CommonSuffix(a, b, start)
    decreases |a|
  {
    if n > 0 {
      var a', b' := a[..|a| - 1], b[..|b| - 1];
      assert FromEnd(a, 1) == FromEnd(b, 1);
      assert forall i | 1 <= i <= n - 1 :: FromEnd(a', i) == FromEnd(a, i + 1) && FromEnd(b', i) == FromEnd(b, i + 1);
      CommonSuffixUnique(a', b', start, n - 1);
    } else if start < |a| && start < |b| {
      assert a[|a| - 1] != b[|b| - 1];
    }
  }

  /**
   * `calcDiff` as written: the equality fast path, the prefix scan that only
   * stops because the texts differ, the suffix scan whose stop condition keeps
   * it clear of the prefix, and the guarded `del`/`ins` computations.
   */
  method CalcDiff<T(==)>(oldval: seq<T>, newval: seq<T>) returns (r: DiffResult<T>)
    ensures r == Diff(oldval, newval)
    ensures Fits(oldval, r) && Apply(oldval, r) == newval
    ensures r.pos <= |oldval| && r.pos <= |newval|
    ensures oldval == newval <==> r == DiffResult(0, 0, [])
  {
    if oldval == newval {
      return DiffResult(0, 0, []);
    }

    var commonStart := 0;
    while At(oldval, commonStart) == At(newval, commonStart)
      invariant commonStart <= |oldval| && commonStart <= |newval|
      invariant oldval[..commonStart] == newval[..commonStart]
      decreases |oldval| - commonStart
    {
      // Both reads are `undefined` only at the end of both texts, which would make them equal.
      ghost var oldPrefix, newPrefix := oldval[..commonStart], newval[..commonStart];
      assert commonStart == |oldval| ==> oldval == oldPrefix;
      assert commonStart == |newval| ==> newval == newPrefix;
      commonStart := commonStart + 1;
    }
    CommonPrefixUnique(oldval, newval, commonStart);

    var commonEnd := 0;
    while At(oldval, |oldval| - 1 - commonEnd) == At(newval, |newval| - 1 - commonEnd)
      && commonEnd + commonStart < |oldval|
      && commonEnd + commonStart < |newval|
      invariant commonStart + commonEnd <= |oldval| && commonStart + commonEnd <= |newval|
      invariant SuffixAgrees(oldval, newval, commonEnd)
      decreases |oldval| - commonEnd
    {
      commonEnd := commonEnd + 1;
    }
    CommonSuffixUnique(oldval, newval, commonStart, commonEnd);

    var del := if |oldval| != commonStart + commonEnd then |oldval| - commonStart - commonEnd else 0;
    var ins := if |newval| != commonStart + commonEnd then newval[commonStart..|newval| - commonEnd] else [];
    r := DiffResult(commonStart, del, ins);
    DiffRoundTrip(oldval, newval);
  }

  /** Applying the reducer's result to the oldval text always rebuilds the newval text. */
  lemma DiffRoundTrip<T>(oldval: seq<T>, newval: seq<T>)
    ensures Fits(oldval, Diff(oldval, newval))
    ensures Apply(oldval, Diff(oldval, newval)) == newval
  {
    var d := Diff(oldval, newval);
    if oldval != newval {
      var s := d.pos;
      var e := CommonSuffix(oldval, newval, s);
      SuffixAgreesSlices(oldval, newval, e);
      assert oldval[..s] == newval[..s];
      assert oldval[s + d.del..] == oldval[|oldval| - e..] == newval[|newval| - e..];
      assert newval == newval[..s] + newval[s..|newval| - e] + newval[|newval| - e..];
    }
  }

  /** Identical texts give exactly the no-op `{pos: 0, del: 0, ins: ""}`. */
  lemma DiffIdentity<T>(s: seq<T>)
    ensures Diff(s, s) == DiffResult(0, 0, [])
  {
  }

  /** A replacement that deletes and inserts nothing is reported exactly when the texts are equal. */
  lemma DiffNoOpIffEqual<T>(oldval: seq<T>, newval: seq<T>)
    ensures Diff(oldval, newval).del == 0 && Diff(oldval, newval).ins == [] <==> oldval == newval
  {
    DiffRoundTrip(oldval, newval);
    var d := Diff(oldval, newval);
    if d.del == 0 && d.ins == [] {
      assert oldval == oldval[..d.pos] + oldval[d.pos..];
    }
  }

  /**
   * The fields of the result: `pos` is the longest common prefix, the kept
   * tail is a common suffix clear of that prefix and as long as it can be,
   * `del` is what lies between, and `ins` is the middle of the newval text.
   */
  lemma DiffFields<T>(oldval: seq<T>, newval: seq<T>)
    requires oldval != newval
    ensures var d := Diff(oldval, newval);
      && d.pos <= |oldval| && d.pos <= |newval|
      && oldval[..d.pos] == newval[..d.pos]
      && (d.pos < |oldval| && d.pos < |newval| ==> oldval[d.pos] != newval[d.pos])
      && d.pos + d.del <= |oldval|
      && d.pos + |d.ins| <= |newval|
      && |oldval| - d.del == |newval| - |d.ins|
      && d.ins == newval[d.pos..d.pos + |d.ins|]
      && oldval[d.pos + d.del..] == newval[d.pos + |d.ins|..]
      && (d.del > 0 && |d.ins| > 0 ==> oldval[d.pos + d.del - 1] != newval[d.pos + |d.ins| - 1])
  {
    var d := Diff(oldval, newval);
    SuffixAgreesSlices(oldval, newval, CommonSuffix(oldval, newval, d.pos));
  }

  /** Pure append: the oldval text is a proper prefix of the newval one. */
  lemma DiffPureAppend<T>(oldval: seq<T>, newval: seq<T>)
    requires oldval < newval
    ensures Diff(oldval, newval) == DiffResult(|oldval|, 0, newval[|oldval|..])
  {
  }

  /** Pure truncation: the newval text is a proper prefix of the oldval one. */
  lemma DiffPureTruncation<T>(oldval: seq<T>, newval: seq<T>)
    requires newval < oldval
    ensures Diff(oldval, newval) == DiffResult(|newval|, |oldval| - |newval|, [])
  {
  }

  /** Concrete cases: single substitution, insertion into a run of equal characters, and an empty side. */
  lemma DiffExamples()
    ensures Diff("cat", "cut") == DiffResult(1, 1, "u")
    ensures Diff("aaa", "aaaa") == DiffResult(3, 0, "a")
    ensures Diff("", "abc") == DiffResult(0, 0, "abc")
    ensures Diff("abc", "") == DiffResult(0, 3, "")
  {
    CommonPrefixUnique("cat", "cut", 1);
    CommonSuffixUnique("cat", "cut", 1, 1);
    DiffPureAppend("aaa", "aaaa");
    DiffPureAppend("", "abc");
    DiffPureTruncation("abc", "");
  }
}
