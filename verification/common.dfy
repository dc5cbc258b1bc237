/** Vocabulary shared by every component of the query pipeline: optional
    values, the outcome of a call into code outside the model, table cells,
    records and rectangular tables, and two facts about sequences
    (subsequences and order-preserving filters). */
module Common {

  datatype Option<+T> = None | Some(value: T)

  /** The outcome of an effect the model does not look inside: a network
      download, a database statement, a call to the completion service. */
  datatype Outcome<+T> = Ok(value: T) | Err

  /** One table cell as it travels from the analytical database through the
      API to the browser. `NaN` is the floating not-a-number sentinel, kept as
      a constructor of its own; numbers are integers because no floating
      arithmetic is modelled. */
  datatype Cell = Null | NaN | Num(n: int) | Str(s: string) | Bool(b: bool)

  /** pandas' notion of a missing value: None, NA and NaN alike. */
  predicate IsMissing(c: Cell)
  {
    c.Null? || c.NaN?
  }

  /** A record: field name / value pairs in column order, the shape of one
      element of a JSON array of objects. */
  type Record = seq<(string, Cell)>

  /** A table as a data frame holds it: column names and rows of cells. */
  datatype Frame = Frame(columns: seq<string>, rows: seq<seq<Cell>>)
  {
    /** Every row has exactly one cell per column. */
    predicate Rectangular()
    {
      forall i :: 0 <= i < |rows| ==> |rows[i]| == |columns|
    }
  }

  /** Data frames are rectangular by construction. */
  type Table = f: Frame | f.Rectangular() witness Frame([], [])

  /** `a` is obtained from `b` by deleting elements (greedy matching). */
  predicate IsSubsequence<T(==)>(a: seq<T>, b: seq<T>)
    decreases |b|
  {
    if |a| == 0 then true
    else if |b| == 0 then false
    else if a[0] == b[0] then IsSubsequence(a[1..], b[1..])
    else IsSubsequence(a, b[1..])
  }

  lemma {:induction false} SubsequenceLength<T>(a: seq<T>, b: seq<T>)
    requires IsSubsequence(a, b)
    ensures |a| <= |b|
    decreases |b|
  {
    if |a| > 0 {
      if a[0] == b[0] {
        SubsequenceLength(a[1..], b[1..]);
      } else {
        SubsequenceLength(a, b[1..]);
      }
    }
  }

  lemma {:induction false} SubsequenceReflexive<T>(a: seq<T>)
    ensures IsSubsequence(a, a)
    decreases |a|
  {
    if |a| > 0 {
      SubsequenceReflexive(a[1..]);
    }
  }

  /** Deleting the first element of the smaller sequence keeps it a subsequence. */
  lemma {:induction false} SubsequenceDropFirst<T>(a: seq<T>, b: seq<T>)
    requires |a| > 0 && IsSubsequence(a, b)
    ensures IsSubsequence(a[1..], b)
    decreases |b|, 0
  {
    if |a| > 1 {
      assert b == [b[0]] + b[1..];
      if a[0] == b[0] {
        SubsequenceExtend(a[1..], b[1..], b[0]);
      } else {
        SubsequenceDropFirst(a, b[1..]);
        SubsequenceExtend(a[1..], b[1..], b[0]);
      }
    }
  }

  /** Prepending an element to the larger sequence keeps a subsequence. */
  lemma {:induction false} SubsequenceExtend<T>(a: seq<T>, b: seq<T>, x: T)
    requires IsSubsequence(a, b)
    ensures IsSubsequence(a, [x] + b)
    decreases |b|, 1
  {
    if |a| > 0 {
      assert ([x] + b)[1..] == b;
      if a[0] == x {
        SubsequenceDropFirst(a, b);
      }
    }
  }

  lemma {:induction false} SubsequenceTransitive<T>(a: seq<T>, b: seq<T>, c: seq<T>)
    requires IsSubsequence(a, b) && IsSubsequence(b, c)
    ensures IsSubsequence(a, c)
    decreases |c|
  {
    if |a| > 0 {
      if b[0] == c[0] {
        if a[0] == b[0] {
          SubsequenceTransitive(a[1..], b[1..], c[1..]);
        } else {
          SubsequenceTransitive(a, b[1..], c[1..]);
        }
      } else {
        SubsequenceTransitive(a, b, c[1..]);
        assert c == [c[0]] + c[1..];
        SubsequenceExtend(a, c[1..], c[0]);
      }
    }
  }

  /** The elements of `s` that satisfy `p`, in their original order. */
  function Filter<T>(p: T -> bool, s: seq<T>): (r: seq<T>)
    ensures |r| <= |s|
    ensures forall i :: 0 <= i < |r| ==> p(r[i])
    ensures forall x :: x in s && p(x) ==> x in r
    ensures forall x :: x in r ==> x in s
  {
    if |s| == 0 then []
    else if p(s[0]) then [s[0]] + Filter(p, s[1..])
    else Filter(p, s[1..])
  }

  /** Filtering distributes over concatenation, so it keeps relative order. */
  lemma {:induction false} FilterAppend<T>(p: T -> bool, a: seq<T>, b: seq<T>)
    ensures Filter(p, a + b) == Filter(p, a) + Filter(p, b)
    decreases |a|
  {
    if |a| > 0 {
      assert (a + b)[0] == a[0];
      assert (a + b)[1..] == a[1..] + b;
      FilterAppend(p, a[1..], b);
      if p(a[0]) {
        assert Filter(p, a + b) == [a[0]] + (Filter(p, a[1..]) + Filter(p, b));
      }
    } else {
      assert a + b == b;
    }
  }

  /** A filter only deletes elements. */
  lemma {:induction false} FilterIsSubsequence<T>(p: T -> bool, s: seq<T>)
    ensures IsSubsequence(Filter(p, s), s)
    decreases |s|
  {
    if |s| > 0 {
      FilterIsSubsequence(p, s[1..]);
      if !p(s[0]) {
        assert s == [s[0]] + s[1..];
        SubsequenceExtend(Filter(p, s), s[1..], s[0]);
      } else {
        assert ([s[0]] + Filter(p, s[1..]))[1..] == Filter(p, s[1..]);
      }
    }
  }

  // ---------------------------------------------------------------------
  // Trimming white space

  /** Every character of `s` is white space for `space`. */
  predicate AllIn(space: char -> bool, s: string)
  {
    forall i :: 0 <= i < |s| ==> space(s[i])
  }

  /** Number of leading white-space characters. */
  function LeadingSpace(space: char -> bool, s: string): (k: nat)
    ensures k <= |s|
    ensures AllIn(space, s[..k])
    ensures k < |s| ==> !space(s[k])
  {
    if |s| == 0 || !space(s[0]) then 0
    else
      var k := 1 + LeadingSpace(space, s[1..]);
      assert s[..k] == [s[0]] + s[1..][..k - 1];
      k
  }

  /** Dropping the last character and then the suffix of length `k - 1`
      leaves the suffix of length `k` without its last character. */
  lemma SuffixSplit(s: string, k: nat)
    requires 0 < k <= |s|
    ensures s[|s| - k..] == s[..|s| - 1][|s| - k..] + [s[|s| - 1]]
  {
  }

  /** Number of trailing white-space characters. */
  function TrailingSpace(space: char -> bool, s: string): (k: nat)
    ensures k <= |s|
    ensures AllIn(space, s[|s| - k..])
    ensures k < |s| ==> !space(s[|s| - k - 1])
  {
    if |s| == 0 || !space(s[|s| - 1]) then 0
    else
      var k := 1 + TrailingSpace(space, s[..|s| - 1]);
      SuffixSplit(s, k);
      k
  }

  /** White space removed from both ends of `s` (Python's `str.strip()`,
      JavaScript's `String.prototype.trim`), for the white-space set
      `space`: the slice of `s` left between the white-space ends. */
  function Trim(space: char -> bool, s: string): (r: string)
    ensures exists i, j :: 0 <= i <= j <= |s| && r == s[i..j] && AllIn(space, s[..i]) && AllIn(space, s[j..])
    ensures |r| > 0 ==> !space(r[0]) && !space(r[|r| - 1])
    ensures AllIn(space, s) <==> r == []
  {
    var i := LeadingSpace(space, s);
    var rest := s[i..];
    var k := TrailingSpace(space, rest);
    assert s[i..][..|rest| - k] == s[i..i + |rest| - k];
    assert s[i + |rest| - k..] == rest[|rest| - k..];
    assert AllIn(space, s) ==> i == |s|;
    assert i == |s| ==> s == s[..i];
    rest[..|rest| - k]
  }
}
