/** The string-table loader (OpenDiablo2.Core/TextDictionary.cs): one key-to-value
    map filled first from the lines of the English text table, then from the
    binary expansion hash table. Each assignment overwrites, so the last value
    stored for a key wins; any exception aborts the load. The archive that
    supplies the two tables is replaced by its outputs: a sequence of lines and
    a byte sequence. */
module TextDictionary {
  import opened Runtime
  import opened BinaryReader

  // ---------------------------------------------------------------------------
  // String.Trim

  /** Char.IsWhiteSpace: the Unicode space separators, line and paragraph
      separators, and the control characters U+0009..U+000D and U+0085. */
  predicate IsWhiteSpace(c: char) {
    c == ' ' || ('\t' <= c <= '\r') || c == '\U{85}' || c == '\U{A0}' || c == '\U{1680}'
    || ('\U{2000}' <= c <= '\U{200A}') || c == '\U{2028}' || c == '\U{2029}'
    || c == '\U{202F}' || c == '\U{205F}' || c == '\U{3000}'
  }

  predicate AllWhiteSpace(s: string) {
    forall k :: 0 <= k < |s| ==> IsWhiteSpace(s[k])
  }

  /** s without its leading white space. */
  function TrimStart(s: string): (r: string)
    ensures |r| <= |s| && r == s[|s| - |r|..]
    ensures AllWhiteSpace(s[..|s| - |r|])
    ensures |r| > 0 ==> !IsWhiteSpace(r[0])
    decreases |s|
  {
    if |s| > 0 && IsWhiteSpace(s[0]) then TrimStart(s[1..]) else s
  }

  /** s without its trailing white space. */
  function TrimEnd(s: string): (r: string)
    ensures |r| <= |s| && r == s[..|r|]
    ensures AllWhiteSpace(s[|r|..])
    ensures |r| > 0 ==> !IsWhiteSpace(r[|r| - 1])
    decreases |s|
  {
    if |s| > 0 && IsWhiteSpace(s[|s| - 1]) then TrimEnd(s[..|s| - 1]) else s
  }

  /** String.Trim(): s without leading and trailing white space. */
  function Trim(s: string): (r: string)
    ensures |r| <= |s|
    ensures |r| > 0 ==> !IsWhiteSpace(r[0]) && !IsWhiteSpace(r[|r| - 1])
  {
    TrimEnd(TrimStart(s))
  }

  /** Leading white space in front of a part that does not start with white space is
      exactly what TrimStart removes. */
  lemma {:induction false} TrimStartOf(a: string, rest: string)
    requires AllWhiteSpace(a)
    requires |rest| > 0 ==> !IsWhiteSpace(rest[0])
    ensures TrimStart(a + rest) == rest
    decreases |a|
  {
    if |a| > 0 {
      assert (a + rest)[1..] == a[1..] + rest;
      TrimStartOf(a[1..], rest);
    } else {
      assert a + rest == rest;
    }
  }

  /** Trailing white space behind a part that does not end with white space is exactly
      what TrimEnd removes. */
  lemma {:induction false} TrimEndOf(rest: string, b: string)
    requires AllWhiteSpace(b)
    requires |rest| > 0 ==> !IsWhiteSpace(rest[|rest| - 1])
    ensures TrimEnd(rest + b) == rest
    decreases |b|
  {
    if |b| > 0 {
      assert (rest + b)[..|rest + b| - 1] == rest + b[..|b| - 1];
      TrimEndOf(rest, b[..|b| - 1]);
    } else {
      assert rest + b == rest;
    }
  }

  /** Trim is characterised by what it keeps: for white space a and b around a middle
      part that neither starts nor ends with white space, Trim(a + m + b) is m. */
  lemma {:induction false} TrimUnique(a: string, m: string, b: string)
    requires AllWhiteSpace(a) && AllWhiteSpace(b)
    requires |m| > 0 ==> !IsWhiteSpace(m[0]) && !IsWhiteSpace(m[|m| - 1])
    ensures Trim(a + m + b) == m
  {
    if |m| == 0 {
      var s := a + m + b;
      assert AllWhiteSpace(s);
    } else {
      assert a + m + b == a + (m + b);
      TrimStartOf(a, m + b);
      TrimEndOf(m, b);
    }
  }

  /** Trimming twice trims nothing more. */
  lemma {:induction false} TrimIdempotent(s: string)
    ensures Trim(Trim(s)) == Trim(s)
  {
    var m := Trim(s);
    assert [] + m + [] == m;
    TrimUnique([], m, []);
  }

  // ---------------------------------------------------------------------------
  // String.Split(',') and String.Split(new[] {','}, 3)

  /** Index of the first comma of s. */
  function FirstComma(s: string): (i: nat)
    requires ',' in s
    ensures i < |s| && s[i] == ',' && ',' !in s[..i]
  {
    if s[0] == ',' then 0 else assert s == [s[0]] + s[1..]; 1 + FirstComma(s[1..])
  }

  /** Every field between the commas of s, in order. */
  function Split(s: string): (r: seq<string>)
    ensures |r| >= 1
    ensures forall k :: 0 <= k < |r| ==> ',' !in r[k]
    decreases |s|
  {
    if ',' !in s then [s] else var i := FirstComma(s); [s[..i]] + Split(s[i + 1..])
  }

  /** At most n fields: the first n - 1 fields of s, then the rest of s in one field. */
  function SplitAtMost(s: string, n: nat): (r: seq<string>)
    requires 1 <= n
    ensures 1 <= |r| <= n
    decreases n
  {
    if n == 1 || ',' !in s then [s] else var i := FirstComma(s); [s[..i]] + SplitAtMost(s[i + 1..], n - 1)
  }

  /** The fields put back together with a comma between each two. */
  function Join(fields: seq<string>): string
    requires |fields| >= 1
  {
    if |fields| == 1 then fields[0] else fields[0] + "," + Join(fields[1..])
  }

  /** The first comma of a + "," + b is the one after a. */
  lemma {:induction false} FirstCommaAfter(a: string, b: string)
    requires ',' !in a
    ensures ',' in a + "," + b && FirstComma(a + "," + b) == |a|
    ensures (a + "," + b)[..|a|] == a && (a + "," + b)[|a| + 1..] == b
  {
    var s := a + "," + b;
    assert s[|a|] == ',';
    assert s[..|a|] == a;
    assert s[|a| + 1..] == b;
  }

  /** Joining the fields of s gives s back. */
  lemma {:induction false} SplitJoin(s: string)
    ensures Join(Split(s)) == s
    decreases |s|
  {
    if ',' in s {
      var i := FirstComma(s);
      var rest := Split(s[i + 1..]);
      SplitJoin(s[i + 1..]);
      assert ([s[..i]] + rest)[1..] == rest;
      assert s == s[..i] + "," + s[i + 1..];
    }
  }

  /** Splitting a join of comma-free fields gives the fields back. */
  lemma {:induction false} JoinSplit(fields: seq<string>)
    requires |fields| >= 1
    requires forall k :: 0 <= k < |fields| ==> ',' !in fields[k]
    ensures Split(Join(fields)) == fields
    decreases |fields|
  {
    if |fields| > 1 {
      var rest := fields[1..];
      assert forall k :: 0 <= k < |rest| ==> rest[k] == fields[k + 1];
      SplitAfter(fields[0], Join(rest));
      JoinSplit(rest);
      assert fields == [fields[0]] + rest;
    }
  }

  /** The first field of a + "," + b is a, and the others are the fields of b. */
  lemma {:induction false} SplitAfter(a: string, b: string)
    requires ',' !in a
    ensures Split(a + "," + b) == [a] + Split(b)
  {
    FirstCommaAfter(a, b);
  }

  /** There is one field more than there are commas. */
  lemma {:induction false} SplitCount(s: string)
    ensures |Split(s)| == multiset(s)[','] + 1
    decreases |s|
  {
    if ',' !in s {
      assert multiset(s)[','] == 0;
    } else {
      var i := FirstComma(s);
      assert s == s[..i] + [','] + s[i + 1..];
      assert multiset(s[..i])[','] == 0;
      SplitCount(s[i + 1..]);
    }
  }

  /** Joining the fields of SplitAtMost(s, n) gives s back. */
  lemma {:induction false} SplitAtMostJoin(s: string, n: nat)
    requires 1 <= n
    ensures Join(SplitAtMost(s, n)) == s
    decreases n
  {
    var r := SplitAtMost(s, n);
    if n > 1 && ',' in s {
      var i := FirstComma(s);
      var rest := SplitAtMost(s[i + 1..], n - 1);
      SplitAtMostJoin(s[i + 1..], n - 1);
      assert r == [s[..i]] + rest;
      assert r[1..] == rest;
      assert s == s[..i] + "," + s[i + 1..];
    }
  }

  /** SplitAtMost(s, n) has n fields, or every field of s when s has fewer. */
  lemma {:induction false} SplitAtMostCount(s: string, n: nat)
    requires 1 <= n
    ensures |SplitAtMost(s, n)| == Min(n, |Split(s)|)
    decreases n
  {
    if n > 1 && ',' in s {
      var i := FirstComma(s);
      SplitAtMostCount(s[i + 1..], n - 1);
    }
  }

  /** Every field of SplitAtMost(s, n) but the last is the same field of Split(s):
      only the last field can hold commas. */
  lemma {:induction false} SplitAtMostField(s: string, n: nat, k: nat)
    requires 1 <= n && k < |SplitAtMost(s, n)| - 1
    ensures k < |Split(s)| && SplitAtMost(s, n)[k] == Split(s)[k]
    decreases k
  {
    assert n > 1 && ',' in s;
    var i := FirstComma(s);
    var tail := s[i + 1..];
    var rest := SplitAtMost(tail, n - 1);
    assert SplitAtMost(s, n) == [s[..i]] + rest;
    assert Split(s) == [s[..i]] + Split(tail);
    if k > 0 {
      SplitAtMostField(tail, n - 1, k - 1);
      assert SplitAtMost(s, n)[k] == rest[k - 1];
      assert Split(s)[k] == Split(tail)[k - 1];
    }
  }

  // ---------------------------------------------------------------------------
  // LoadDictionary: the lines of the English table

  predicate StartsWith(s: string, prefix: string) {
    |prefix| <= |s| && s[..|prefix|] == prefix
  }

  predicate EndsWith(s: string, suffix: string) {
    |suffix| <= |s| && s[|s| - |suffix|..] == suffix
  }

  /** The Where filter: a line is loaded when it is not empty, is not a `//` or `#`
      comment, and has at least three comma-separated fields. */
  predicate Kept(line: string) {
    |line| > 0 && !StartsWith(line, "//") && !StartsWith(line, "#") && |Split(line)| >= 3
  }

  /** A line has at least three fields exactly when it holds at least two commas. */
  lemma {:induction false} KeptCommas(line: string)
    ensures Kept(line) <==>
      |line| > 0 && !StartsWith(line, "//") && !StartsWith(line, "#") && multiset(line)[','] >= 2
  {
    SplitCount(line);
  }

  /** A value quoted at both ends loses its first and last characters; a lone `"`
      both starts and ends with a quote, and Substring(1, -1) throws for it. */
  function Unquote(v: string): (r: Result<string>)
    ensures r.Failure? <==> v == "\""
    ensures r.Failure? ==> r.error == SubstringOutOfRange
  {
    if !(StartsWith(v, "\"") && EndsWith(v, "\"")) then Success(v)
    else if |v| < 2 then Failure(SubstringOutOfRange)
    else Success(v[1 .. |v| - 1])
  }

  /** Quoting a string and unquoting it gives the string back. */
  lemma {:induction false} UnquoteQuoted(s: string)
    ensures Unquote("\"" + s + "\"") == Success(s)
  {
    var v := "\"" + s + "\"";
    assert v[..1] == "\"" && v[|v| - 1..] == "\"";
    assert v[1 .. |v| - 1] == s;
  }

  /** A value that is not quoted at both ends is stored as it is. */
  lemma {:induction false} UnquotePlain(v: string)
    requires |v| == 0 || v[0] != '"' || v[|v| - 1] != '"'
    ensures Unquote(v) == Success(v)
  {
  }

  /** The Select and the loop body for one kept line: split into at most three fields,
      trimmed; the key is the second field and the value the unquoted third. */
  function RowItem(line: string): (r: Result<(string, string)>)
    ensures Kept(line) ==> r.Failure? ==> r.error == SubstringOutOfRange
  {
    var row := SplitAtMost(line, 3);
    SplitAtMostCount(line, 3);
    if |row| < 2 then Failure(IndexOutOfRange(1))
    else if |row| < 3 then Failure(IndexOutOfRange(2))
    else
      var value :- Unquote(Trim(row[2]));
      Success((Trim(row[1]), value))
  }

  /** For a kept line a,b,c where a and b hold no comma, the key is b trimmed and the value
      is all of c, commas included, trimmed and then unquoted. */
  lemma {:induction false} RowItemFields(a: string, b: string, c: string)
    requires ',' !in a && ',' !in b
    requires Kept(a + "," + b + "," + c)
    ensures var line := a + "," + b + "," + c;
      var v := Unquote(Trim(c));
      (v.Failure? ==> RowItem(line) == Failure(v.error)) &&
      (v.Success? ==> RowItem(line) == Success((Trim(b), v.value)))
  {
    SplitThree(a, b, c);
  }

  /** Splitting a,b,c into at most three fields gives a, b and all of c. */
  lemma {:induction false} SplitThree(a: string, b: string, c: string)
    requires ',' !in a && ',' !in b
    ensures SplitAtMost(a + "," + b + "," + c, 3) == [a, b, c]
  {
    var line := a + "," + b + "," + c;
    assert line == a + "," + (b + "," + c);
    FirstCommaAfter(a, b + "," + c);
    assert SplitAtMost(line, 3) == [a] + SplitAtMost(b + "," + c, 2);
    FirstCommaAfter(b, c);
    assert SplitAtMost(b + "," + c, 2) == [b] + SplitAtMost(c, 1);
  }

  /** The lines the Where filter lets through, in order. */
  function KeptLines(text: seq<string>): (r: seq<string>)
    ensures |r| <= |text|
    ensures forall k :: 0 <= k < |r| ==> Kept(r[k])
    decreases |text|
  {
    if text == [] then []
    else (if Kept(text[0]) then [text[0]] else []) + KeptLines(text[1..])
  }

  /** The positions at or after i whose element passes keep, in increasing order: the
      reference that both Where filters are checked against. */
  function Positions<T>(xs: seq<T>, keep: T -> bool, i: nat): seq<nat>
    requires i <= |xs|
    decreases |xs| - i
  {
    if i == |xs| then [] else (if keep(xs[i]) then [i] else []) + Positions(xs, keep, i + 1)
  }

  /** ys is xs[i..] filtered by keep: ys[j] is the element at position idx[j], the positions
      increase, and they are exactly the positions from i on whose element passes. */
  predicate Picks<T(==)>(xs: seq<T>, i: nat, ys: seq<T>, idx: seq<nat>, keep: T -> bool)
    requires i <= |xs|
  {
    PicksAt(xs, i, ys, idx) && Increasing(idx) && ExactlyPassing(xs, i, idx, keep)
  }

  predicate PicksAt<T(==)>(xs: seq<T>, i: nat, ys: seq<T>, idx: seq<nat>) {
    |idx| == |ys| && forall j :: 0 <= j < |idx| ==> i <= idx[j] < |xs| && ys[j] == xs[idx[j]]
  }

  predicate Increasing(idx: seq<nat>) {
    forall j, j' :: 0 <= j < j' < |idx| ==> idx[j] < idx[j']
  }

  predicate ExactlyPassing<T>(xs: seq<T>, i: nat, idx: seq<nat>, keep: T -> bool) {
    forall k :: i <= k < |xs| ==> (keep(xs[k]) <==> k in idx)
  }

  /** Prepending position i to a selection of xs[i + 1..] gives a selection of xs[i..]. */
  lemma {:induction false} PicksStep<T>(xs: seq<T>, i: nat, ys: seq<T>, idx: seq<nat>, keep: T -> bool)
    requires i < |xs| && Picks(xs, i + 1, ys, idx, keep)
    ensures var head := if keep(xs[i]) then [xs[i]] else [];
      var hidx := if keep(xs[i]) then [i] else [];
      Picks(xs, i, head + ys, hidx + idx, keep)
  {
    var head := if keep(xs[i]) then [xs[i]] else [];
    var hidx := if keep(xs[i]) then [i] else [];
    PicksAtStep(xs, i, ys, idx, head, hidx);
    IncreasingStep(xs, i, ys, idx, hidx);
    ExactlyPassingStep(xs, i, ys, idx, keep, hidx);
  }

  lemma {:induction false} PicksAtStep<T>(xs: seq<T>, i: nat, ys: seq<T>, idx: seq<nat>, head: seq<T>, hidx: seq<nat>)
    requires i < |xs| && PicksAt(xs, i + 1, ys, idx)
    requires (head == [] && hidx == []) || (head == [xs[i]] && hidx == [i])
    ensures PicksAt(xs, i, head + ys, hidx + idx)
  {
    var ys', idx' := head + ys, hidx + idx;
    forall j | 0 <= j < |idx'|
      ensures i <= idx'[j] < |xs| && ys'[j] == xs[idx'[j]]
    {
      if j >= |hidx| {
        assert idx'[j] == idx[j - |hidx|] && ys'[j] == ys[j - |hidx|];
      }
    }
  }

  lemma {:induction false} IncreasingStep<T>(xs: seq<T>, i: nat, ys: seq<T>, idx: seq<nat>, hidx: seq<nat>)
    requires PicksAt(xs, i + 1, ys, idx) && Increasing(idx)
    requires hidx == [] || hidx == [i]
    ensures Increasing(hidx + idx)
  {
    var idx' := hidx + idx;
    forall j, j' | 0 <= j < j' < |idx'|
      ensures idx'[j] < idx'[j']
    {
      if j >= |hidx| {
        assert idx'[j] == idx[j - |hidx|] && idx'[j'] == idx[j' - |hidx|];
      } else {
        assert idx'[j'] == idx[j' - 1];
      }
    }
  }

  lemma {:induction false} ExactlyPassingStep<T>(xs: seq<T>, i: nat, ys: seq<T>, idx: seq<nat>, keep: T -> bool, hidx: seq<nat>)
    requires i < |xs| && PicksAt(xs, i + 1, ys, idx) && ExactlyPassing(xs, i + 1, idx, keep)
    requires hidx == if keep(xs[i]) then [i] else []
    ensures ExactlyPassing(xs, i, hidx + idx, keep)
  {
    var idx' := hidx + idx;
    assert forall j :: 0 <= j < |idx| ==> idx[j] != i;
    forall k | i <= k < |xs|
      ensures keep(xs[k]) <==> k in idx'
    {
      assert k in idx' <==> k in hidx || k in idx;
    }
  }

  /** The assignment each kept line makes, or the exception it throws. */
  function RowItems(lines: seq<string>): (r: seq<Result<(string, string)>>)
    ensures |r| == |lines|
  {
    seq(|lines|, k requires 0 <= k < |lines| => RowItem(lines[k]))
  }

  // ---------------------------------------------------------------------------
  // Assignments into the lookup table

  /** The table after `lookupTable[key] = value` for each pair in turn. */
  function Assign(m: map<string, string>, pairs: seq<(string, string)>): map<string, string>
    decreases |pairs|
  {
    if pairs == [] then m else Assign(m[pairs[0].0 := pairs[0].1], pairs[1..])
  }

  /** The last assignment to a key wins; a key no pair assigns keeps its old value. */
  lemma {:induction false} AssignLookup(m: map<string, string>, pairs: seq<(string, string)>, key: string)
    ensures key in Assign(m, pairs) <==> key in m || exists i :: 0 <= i < |pairs| && pairs[i].0 == key
    ensures forall i :: 0 <= i < |pairs| && pairs[i].0 == key && (forall j :: i < j < |pairs| ==> pairs[j].0 != key) ==>
      Assign(m, pairs)[key] == pairs[i].1
    ensures (forall i :: 0 <= i < |pairs| ==> pairs[i].0 != key) && key in m ==> Assign(m, pairs)[key] == m[key]
    decreases |pairs|
  {
    if pairs != [] {
      var m' := m[pairs[0].0 := pairs[0].1];
      var rest := pairs[1..];
      AssignLookup(m', rest, key);
      if exists i :: 0 <= i < |pairs| && pairs[i].0 == key {
        var i :| 0 <= i < |pairs| && pairs[i].0 == key;
        if i > 0 {
          assert rest[i - 1].0 == key;
        }
      }
      forall i | 0 <= i < |pairs| && pairs[i].0 == key && (forall j :: i < j < |pairs| ==> pairs[j].0 != key)
        ensures Assign(m, pairs)[key] == pairs[i].1
      {
        if i == 0 {
          forall j | 0 <= j < |rest|
            ensures rest[j].0 != key
          {
            assert pairs[j + 1] == rest[j];
          }
        } else {
          assert rest[i - 1] == pairs[i];
          forall j | i - 1 < j < |rest|
            ensures rest[j].0 != key
          {
            assert pairs[j + 1] == rest[j];
          }
        }
      }
      if (forall i :: 0 <= i < |pairs| ==> pairs[i].0 != key) {
        forall j | 0 <= j < |rest|
          ensures rest[j].0 != key
        {
          assert pairs[j + 1] == rest[j];
        }
      }
    }
  }

  /** The table after a load, and how the load ended. */
  datatype Loaded = Loaded(table: map<string, string>, outcome: Result<()>)

  /** The assignments in order, stopping at the first one that throws: the table keeps
      every assignment made before it. */
  function Store(m: map<string, string>, items: seq<Result<(string, string)>>): (r: Loaded)
    ensures r.outcome.Failure? ==> exists i :: 0 <= i < |items| && items[i] == Failure(r.outcome.error)
    decreases |items|
  {
    if items == [] then Loaded(m, Success(()))
    else if items[0].Failure? then Loaded(m, Failure(items[0].error))
    else Store(m[items[0].value.0 := items[0].value.1], items[1..])
  }

  /** The pairs of items that all succeeded. */
  function Pairs(items: seq<Result<(string, string)>>): (r: seq<(string, string)>)
    requires forall i :: 0 <= i < |items| ==> items[i].Success?
    ensures |r| == |items| && forall i :: 0 <= i < |items| ==> r[i] == items[i].value
  {
    seq(|items|, i requires 0 <= i < |items| => items[i].value)
  }

  /** A load that stops at item f has made exactly the assignments of the items before f. */
  lemma {:induction false} StorePrefix(m: map<string, string>, items: seq<Result<(string, string)>>, f: nat)
    requires f <= |items|
    requires forall i :: 0 <= i < f ==> items[i].Success?
    ensures Store(m, items) == Store(Assign(m, Pairs(items[..f])), items[f..])
    decreases f
  {
    if f > 0 {
      var m' := m[items[0].value.0 := items[0].value.1];
      StorePrefix(m', items[1..], f - 1);
      assert items[1..][f - 1..] == items[f..];
      assert Pairs(items[..f])[1..] == Pairs(items[1..][..f - 1]);
    }
  }

  /** When every item succeeds, the load succeeds with all of their assignments. */
  lemma {:induction false} StoreAll(m: map<string, string>, items: seq<Result<(string, string)>>)
    requires forall i :: 0 <= i < |items| ==> items[i].Success?
    ensures Store(m, items) == Loaded(Assign(m, Pairs(items)), Success(()))
  {
    StorePrefix(m, items, |items|);
    assert items[..|items|] == items;
  }

  /** When item f is the first that throws, the load fails with its exception and keeps
      the assignments of the items before it. */
  lemma {:induction false} StoreFirstFailure(m: map<string, string>, items: seq<Result<(string, string)>>, f: nat)
    requires f < |items| && items[f].Failure?
    requires forall i :: 0 <= i < f ==> items[i].Success?
    ensures Store(m, items) == Loaded(Assign(m, Pairs(items[..f])), Failure(items[f].error))
  {
    StorePrefix(m, items, f);
  }

  /** Running the items of xs[i..] is running the item of xs[i], if any, then the rest. */
  lemma {:induction false} StoreStep(m: map<string, string>, head: seq<Result<(string, string)>>,
                                     tail: seq<Result<(string, string)>>)
    requires |head| <= 1
    ensures head == [] ==> Store(m, head + tail) == Store(m, tail)
    ensures head != [] && head[0].Failure? ==> Store(m, head + tail) == Loaded(m, Failure(head[0].error))
    ensures head != [] && head[0].Success? ==>
      Store(m, head + tail) == Store(m[head[0].value.0 := head[0].value.1], tail)
  {
    if head == [] {
      assert head + tail == tail;
    } else {
      assert (head + tail)[0] == head[0];
      assert (head + tail)[1..] == tail;
    }
  }

  /** Item i is the last one that assigns key. */
  predicate LastAssigns(items: seq<Result<(string, string)>>, i: int, key: string) {
    0 <= i < |items| && items[i].Success? && items[i].value.0 == key &&
    forall j :: i < j < |items| && items[j].Success? ==> items[j].value.0 != key
  }

  /** Some item assigns key. */
  predicate Assigns(items: seq<Result<(string, string)>>, key: string) {
    exists i :: 0 <= i < |items| && items[i].Success? && items[i].value.0 == key
  }

  /** After a load that succeeds, every item succeeded, the last item that assigns a key
      gave its value, and a key no item assigns keeps its old value. */
  lemma {:induction false} StoreLastWins(m: map<string, string>, items: seq<Result<(string, string)>>, key: string)
    requires Store(m, items).outcome.Success?
    ensures forall i :: 0 <= i < |items| ==> items[i].Success?
    ensures var t := Store(m, items).table;
      forall i :: LastAssigns(items, i, key) ==> key in t && t[key] == items[i].value.1
    ensures var t := Store(m, items).table;
      !Assigns(items, key) ==> (key in t <==> key in m) && (key in m ==> t[key] == m[key])
  {
    AllSucceed(m, items);
    StoreAll(m, items);
    var pairs := Pairs(items);
    AssignLookup(m, pairs, key);
    forall i | LastAssigns(items, i, key)
      ensures pairs[i].0 == key && forall j :: i < j < |pairs| ==> pairs[j].0 != key
    {
    }
    if !Assigns(items, key) {
      forall i | 0 <= i < |pairs|
        ensures pairs[i].0 != key
      {
        assert items[i].Success?;
      }
    }
  }

  /** What LoadDictionary leaves in the table: one assignment per kept line, in order,
      so that a later line with the same key wins. */
  function DictionaryLoad(m: map<string, string>, text: seq<string>): Loaded {
    Store(m, RowItems(KeptLines(text)))
  }

  lemma {:induction false} AllSucceed(m: map<string, string>, items: seq<Result<(string, string)>>)
    requires Store(m, items).outcome.Success?
    ensures forall i :: 0 <= i < |items| ==> items[i].Success?
  {
    if exists i :: 0 <= i < |items| && items[i].Failure? {
      var f := FirstFailing(items);
      StoreFirstFailure(m, items, f);
    }
  }

  /** Index of the first item that throws. */
  function FirstFailing(items: seq<Result<(string, string)>>): (f: nat)
    requires exists i :: 0 <= i < |items| && items[i].Failure?
    ensures f < |items| && items[f].Failure? && forall i :: 0 <= i < f ==> items[i].Success?
    decreases |items|
  {
    if items[0].Failure? then 0
    else
      assert exists i :: 0 <= i < |items[1..]| && items[1..][i].Failure? by {
        var i :| 0 <= i < |items| && items[i].Failure?;
        assert items[1..][i - 1] == items[i];
      }
      var f := FirstFailing(items[1..]);
      assert forall i :: 1 <= i < f + 1 ==> items[i] == items[1..][i - 1];
      f + 1
  }

  // ---------------------------------------------------------------------------
  // LoadExpansionTable: the binary hash table

  /** HashTableEntry: one 17-byte record of the hash table. */
  datatype HashTableEntry = HashTableEntry(
    isActive: bool,
    index: nat,
    hashValue: nat,
    indexString: nat,
    nameString: nat,
    nameLength: nat)

  /** The header: CRC (2 bytes, skipped), NumberOfElements (uint16 at 2), HashTableSize
      (uint32 at 4), version (1 byte), and three uint32 offsets that are read and
      dropped; 21 bytes in all. */
  function ExpansionHeaderAt(data: seq<byte>): (r: Result<(nat, nat)>)
    ensures r.Failure? <==> |data| < 21
    ensures r.Failure? ==> r.error == EndOfStream
    ensures r.Success? ==> r.value.0 < 0x1_0000 && r.value.1 < TWO_32
  {
    if 21 <= |data| then Success((U16Le(data, 2), U32Le(data, 4))) else Failure(EndOfStream)
  }

  /** The n uint16 element indexes from position p, or EndOfStream if they do not fit. */
  function ElementIndexesAt(data: seq<byte>, p: nat, n: nat): (r: Result<seq<int>>)
    ensures r.Failure? <==> 0 < n && |data| < p + 2 * n
    ensures r.Failure? ==> r.error == EndOfStream
    ensures r.Success? ==> |r.value| == n && forall k :: 0 <= k < n ==> r.value[k] == U16Le(data, p + 2 * k)
  {
    if n == 0 then Success([])
    else if p + 2 * n <= |data| then Success(seq(n, k requires 0 <= k < n => U16Le(data, p + 2 * k)))
    else Failure(EndOfStream)
  }

  /** The hash entry at position p: IsActive is whether its first byte is 1, then Index
      (uint16), HashValue, IndexString and NameString (uint32 each) and NameLength (uint16). */
  function HashEntryAt(data: seq<byte>, p: nat): (r: Result<HashTableEntry>)
    ensures r.Failure? <==> |data| < p + 17
    ensures r.Failure? ==> r.error == EndOfStream
  {
    if p + 17 <= |data| then
      Success(HashTableEntry(
        isActive := data[p] == 1,
        index := U16Le(data, p + 1),
        hashValue := U32Le(data, p + 3),
        indexString := U32Le(data, p + 7),
        nameString := U32Le(data, p + 11),
        nameLength := U16Le(data, p + 15)))
    else
      Failure(EndOfStream)
  }

  /** A hash entry whose fields fit the widths of their slots. */
  predicate EntryFits(e: HashTableEntry) {
    e.index < 0x1_0000 && e.hashValue < TWO_32 && e.indexString < TWO_32 &&
    e.nameString < TWO_32 && e.nameLength < 0x1_0000
  }

  /** Byte k of the 17-byte record of entry e; an active entry's first byte is 1. */
  function EntryByte(e: HashTableEntry, k: int): byte
    requires EntryFits(e) && 0 <= k < 17
  {
    if k == 0 then (if e.isActive then 1 else 0)
    else if k < 3 then EncodeU16(e.index)[k - 1]
    else if k < 7 then EncodeU32(e.hashValue)[k - 3]
    else if k < 11 then EncodeU32(e.indexString)[k - 7]
    else if k < 15 then EncodeU32(e.nameString)[k - 11]
    else EncodeU16(e.nameLength)[k - 15]
  }

  function EntryBytes(e: HashTableEntry): (r: seq<byte>)
    requires EntryFits(e)
    ensures |r| == 17
  {
    seq(17, k requires 0 <= k < 17 => EntryByte(e, k))
  }

  /** A hash entry written anywhere in a stream decodes to the entry it encodes. */
  lemma {:induction false} HashEntryRoundTrip(pre: seq<byte>, e: HashTableEntry, post: seq<byte>)
    requires EntryFits(e)
    ensures HashEntryAt(pre + EntryBytes(e) + post, |pre|) == Success(e)
  {
    var s := pre + EntryBytes(e) + post;
    var p := |pre|;
    var rec := EntryBytes(e);
    Embedded(pre, rec, post);
    assert s[p] == rec[0];
    U16InRecord(s, p, rec, 1, e.index);
    U32InRecord(s, p, rec, 3, e.hashValue);
    U32InRecord(s, p, rec, 7, e.indexString);
    U32InRecord(s, p, rec, 11, e.nameString);
    U16InRecord(s, p, rec, 15, e.nameLength);
  }

  /** The n hash entries from position p, 17 bytes apart, or EndOfStream if they do not fit. */
  function HashEntriesAt(data: seq<byte>, p: nat, n: nat): (r: Result<seq<HashTableEntry>>)
    ensures r.Failure? <==> 0 < n && |data| < p + 17 * n
    ensures r.Failure? ==> r.error == EndOfStream
    ensures r.Success? ==> (|r.value| == n &&
      forall i :: 0 <= i < n ==> Success(r.value[i]) == HashEntryAt(data, p + 17 * i))
  {
    if n == 0 then Success([])
    else if p + 17 * n <= |data| then Success(seq(n, i requires 0 <= i < n => HashEntryAt(data, p + 17 * i).value))
    else Failure(EndOfStream)
  }

  /** Header, index list and hash entries, in stream order. */
  function ExpansionEntries(data: seq<byte>): Result<seq<HashTableEntry>> {
    var header :- ExpansionHeaderAt(data);
    var elementIndexes :- ElementIndexesAt(data, 21, header.0);
    HashEntriesAt(data, 21 + 2 * header.0, header.1)
  }

  /** The hash entries follow the 21-byte header and the 2*NumberOfElements bytes of
      indexes, one every 17 bytes; reading them fails exactly when the table does not
      fit in the stream. */
  lemma {:induction false} ExpansionLayout(data: seq<byte>)
    ensures ExpansionEntries(data).Success? <==>
      21 <= |data| && 21 + 2 * U16Le(data, 2) + 17 * U32Le(data, 4) <= |data|
    ensures ExpansionEntries(data).Failure? ==> ExpansionEntries(data).error == EndOfStream
    ensures ExpansionEntries(data).Success? ==>
      var es := ExpansionEntries(data).value;
      |es| == U32Le(data, 4) &&
      forall i :: 0 <= i < |es| ==> Success(es[i]) == HashEntryAt(data, 21 + 2 * U16Le(data, 2) + 17 * i)
  {
  }

  /** The Where filter: the active entries, in table order. */
  function Active(entries: seq<HashTableEntry>): (r: seq<HashTableEntry>)
    ensures |r| <= |entries|
    ensures forall k :: 0 <= k < |r| ==> r[k].isActive
    decreases |entries|
  {
    if entries == [] then []
    else (if entries[0].isActive then [entries[0]] else []) + Active(entries[1..])
  }

  /** No active entry, nothing kept. */
  lemma {:induction false} ActiveNone(entries: seq<HashTableEntry>)
    requires forall k :: 0 <= k < |entries| ==> !entries[k].isActive
    ensures Active(entries) == []
    decreases |entries|
  {
    if entries != [] {
      assert forall k :: 0 <= k < |entries[1..]| ==> entries[1..][k] == entries[k + 1];
      ActiveNone(entries[1..]);
    }
  }

  /** Encoding.ASCII.GetString for one byte: bytes above 0x7F decode to '?'. */
  function AsciiChar(b: byte): (c: char)
    ensures b < 0x80 ==> c as int == b
    ensures 0x80 <= b ==> c == '?'
  {
    if b < 0x80 then b as char else '?'
  }

  function AsciiString(bytes: seq<byte>): (s: string)
    ensures |s| == |bytes| && forall k :: 0 <= k < |s| ==> s[k] == AsciiChar(bytes[k])
  {
    seq(|bytes|, k requires 0 <= k < |bytes| => AsciiChar(bytes[k]))
  }

  /** The cast `(char)b`: the char whose code is the byte. */
  function ByteChar(b: byte): (c: char)
    ensures c as int == b
  {
    b as char
  }

  /** The key read from position p: one char per byte, as `(char)b`, up to and excluding
      the first 0 byte. With no 0 byte before the end, the read fails. */
  function CStringAt(data: seq<byte>, p: nat): (r: Result<string>)
    ensures r.Failure? <==> forall k :: p <= k < |data| ==> data[k] != 0
    ensures r.Failure? ==> r.error == EndOfStream
    ensures r.Success? ==> (p + |r.value| < |data| && data[p + |r.value|] == 0 &&
      (forall j :: p <= j < p + |r.value| ==> data[j] != 0) &&
      forall k :: 0 <= k < |r.value| ==> r.value[k] as int == data[p + k])
    decreases |data| - p
  {
    if |data| <= p then Failure(EndOfStream)
    else if data[p] == 0 then Success([])
    else
      var rest :- CStringAt(data, p + 1);
      ConsKey(data, p, rest);
      Success([ByteChar(data[p])] + rest)
  }

  /** A non-zero byte in front of a key read from the next position. */
  lemma {:induction false} ConsKey(data: seq<byte>, p: nat, rest: string)
    requires p + 1 + |rest| < |data|
    requires forall k :: 0 <= k < |rest| ==> rest[k] as int == data[p + 1 + k]
    ensures forall k :: 0 <= k < 1 + |rest| ==> ([ByteChar(data[p])] + rest)[k] as int == data[p + k]
  {
    var key := [ByteChar(data[p])] + rest;
    forall k | 0 <= k < |key|
      ensures key[k] as int == data[p + k]
    {
      if k > 0 {
        assert key[k] == rest[k - 1];
      }
    }
  }

  /** A key of non-zero bytes followed by a 0 byte is read back unchanged. */
  lemma {:induction false} CStringRoundTrip(pre: seq<byte>, key: seq<byte>, post: seq<byte>)
    requires forall k :: 0 <= k < |key| ==> key[k] != 0
    ensures var r := CStringAt(pre + key + [0] + post, |pre|);
      r.Success? && |r.value| == |key| && forall k :: 0 <= k < |key| ==> r.value[k] as int == key[k]
  {
    var data := pre + key + [0] + post;
    var r := CStringAt(data, |pre|);
    assert data[|pre| + |key|] == 0;
    assert r.Success?;
    assert |r.value| == |key|;
    forall k | 0 <= k < |key|
      ensures r.value[k] as int == key[k]
    {
      assert data[|pre| + k] == key[k];
    }
  }

  /** The loop body for one active entry: the value is the NameLength - 1 bytes at
      NameString (fewer where the stream ends first), the key the 0-terminated bytes at
      IndexString. A NameLength of 0 asks ReadBytes for -1 bytes, which throws. */
  function EntryItem(data: seq<byte>, e: HashTableEntry): (r: Result<(string, string)>)
    ensures e.nameLength == 0 ==> r == Failure(NegativeCount(-1))
    ensures r.Success? <==> 1 <= e.nameLength && CStringAt(data, e.indexString).Success?
    ensures 1 <= e.nameLength && r.Failure? ==> r.error == EndOfStream
    ensures r.Success? ==> r.value.0 == CStringAt(data, e.indexString).value
    ensures r.Success? ==> |r.value.1| == Min(e.nameLength - 1, if |data| <= e.nameString then 0 else |data| - e.nameString)
    ensures r.Success? ==> forall k :: 0 <= k < |r.value.1| ==> r.value.1[k] == AsciiChar(data[e.nameString + k])
  {
    var bytes :- ReadBytesAt(data, e.nameString, e.nameLength - 1);
    var key :- CStringAt(data, e.indexString);
    Success((key, AsciiString(bytes)))
  }

  function EntryItems(data: seq<byte>, active: seq<HashTableEntry>): (r: seq<Result<(string, string)>>)
    ensures |r| == |active|
  {
    seq(|active|, k requires 0 <= k < |active| => EntryItem(data, active[k]))
  }

  /** What LoadExpansionTable leaves in the table: nothing changes when the header or
      the entries cannot be read; otherwise one assignment per active entry, in order. */
  function ExpansionLoad(m: map<string, string>, data: seq<byte>): Loaded {
    var entries := ExpansionEntries(data);
    if entries.Failure? then Loaded(m, Failure(entries.error))
    else Store(m, EntryItems(data, Active(entries.value)))
  }

  /** Only active entries assign: a table without one changes nothing. */
  lemma {:induction false} InactiveEntriesIgnored(m: map<string, string>, data: seq<byte>)
    requires ExpansionEntries(data).Success?
    requires forall k :: 0 <= k < |ExpansionEntries(data).value| ==> !ExpansionEntries(data).value[k].isActive
    ensures ExpansionLoad(m, data) == Loaded(m, Success(()))
  {
    ActiveNone(ExpansionEntries(data).value);
  }

  // ---------------------------------------------------------------------------
  // Both tables

  /** The constructor: the English table, then the expansion table, into an empty map. */
  function Load(text: seq<string>, data: seq<byte>): (r: Result<map<string, string>>)
    ensures r.Success? ==> forall key :: key in DictionaryLoad(map[], text).table ==> key in r.value
  {
    var english := DictionaryLoad(map[], text);
    if english.outcome.Failure? then Failure(english.outcome.error)
    else
      var expansion := ExpansionLoad(english.table, data);
      if expansion.outcome.Failure? then Failure(expansion.outcome.error)
      else
        ExpansionKeepsKeys(english.table, data);
        Success(expansion.table)
  }

  /** The expansion table only adds and overwrites keys: no key of the table it starts from
      is removed. */
  lemma {:induction false} ExpansionKeepsKeys(m: map<string, string>, data: seq<byte>)
    ensures forall key :: key in m ==> key in ExpansionLoad(m, data).table
  {
    if ExpansionEntries(data).Success? {
      StoreKeepsKeys(m, EntryItems(data, Active(ExpansionEntries(data).value)));
    }
  }

  /** A load, whether it stops early or not, keeps every key it started with. */
  lemma {:induction false} StoreKeepsKeys(m: map<string, string>, items: seq<Result<(string, string)>>)
    ensures forall key :: key in m ==> key in Store(m, items).table
    decreases |items|
  {
    if items != [] && items[0].Success? {
      StoreKeepsKeys(m[items[0].value.0 := items[0].value.1], items[1..]);
    }
  }

  /** Expansion entries override English ones: after a load that succeeds, a key that an
      active expansion entry assigns holds the value of the last such entry; any other
      key holds what the English table left. */
  lemma {:induction false} ExpansionOverrides(text: seq<string>, data: seq<byte>, key: string)
    requires Load(text, data).Success?
    ensures ExpansionEntries(data).Success?
    ensures var items := EntryItems(data, Active(ExpansionEntries(data).value));
      var t := Load(text, data).value;
      forall i :: LastAssigns(items, i, key) ==> key in t && t[key] == items[i].value.1
    ensures var items := EntryItems(data, Active(ExpansionEntries(data).value));
      var english := DictionaryLoad(map[], text).table;
      var t := Load(text, data).value;
      !Assigns(items, key) ==> (key in t <==> key in english) && (key in english ==> t[key] == english[key])
  {
    var english := DictionaryLoad(map[], text).table;
    var items := EntryItems(data, Active(ExpansionEntries(data).value));
    StoreLastWins(english, items, key);
  }

  // ---------------------------------------------------------------------------
  // The reads of LoadExpansionTable

  method ReadExpansionHeader(br: Reader) returns (r: Result<(nat, nat)>)
    requires br.pos == 0
    modifies br
    ensures r == ExpansionHeaderAt(br.data)
    ensures r.Success? ==> br.pos == 21
  {
    var crc := br.ReadBytes(2);
    var numberOfElements :- br.ReadUInt16();
    var hashTableSize :- br.ReadUInt32();
    var version :- br.ReadByte();
    var stringOffset :- br.ReadUInt32();
    var numberOfLoopsOffset :- br.ReadUInt32();
    var fileSize :- br.ReadUInt32();
    return Success((numberOfElements, hashTableSize));
  }

  method ReadElementIndexes(br: Reader, numberOfElements: nat) returns (r: Result<seq<int>>)
    modifies br
    ensures r == ElementIndexesAt(br.data, old(br.pos), numberOfElements)
    ensures r.Success? ==> br.pos == old(br.pos) + 2 * numberOfElements
  {
    ghost var p := br.pos;
    var elementIndexes := [];
    for elementIndex := 0 to numberOfElements
      invariant br.pos == p + 2 * elementIndex
      invariant 0 < elementIndex ==> br.pos <= |br.data|
      invariant |elementIndexes| == elementIndex
      invariant forall k :: 0 <= k < elementIndex ==> elementIndexes[k] == U16Le(br.data, p + 2 * k)
    {
      var index :- br.ReadUInt16();
      elementIndexes := elementIndexes + [index];
    }
    assert elementIndexes == ElementIndexesAt(br.data, p, numberOfElements).value;
    return Success(elementIndexes);
  }

  method ReadHashEntry(br: Reader) returns (r: Result<HashTableEntry>)
    modifies br
    ensures r == HashEntryAt(br.data, old(br.pos))
    ensures r.Success? ==> br.pos == old(br.pos) + 17
  {
    var isActive :- br.ReadByte();
    var index :- br.ReadUInt16();
    var hashValue :- br.ReadUInt32();
    var indexString :- br.ReadUInt32();
    var nameString :- br.ReadUInt32();
    var nameLength :- br.ReadUInt16();
    return Success(HashTableEntry(isActive == 1, index, hashValue, indexString, nameString, nameLength));
  }

  method ReadHashEntries(br: Reader, hashTableSize: nat) returns (r: Result<seq<HashTableEntry>>)
    modifies br
    ensures r == HashEntriesAt(br.data, old(br.pos), hashTableSize)
  {
    ghost var p := br.pos;
    var hashEntries := [];
    for hashEntryIndex := 0 to hashTableSize
      invariant br.pos == p + 17 * hashEntryIndex
      invariant 0 < hashEntryIndex ==> br.pos <= |br.data|
      invariant |hashEntries| == hashEntryIndex
      invariant forall i :: 0 <= i < hashEntryIndex ==> Success(hashEntries[i]) == HashEntryAt(br.data, p + 17 * i)
    {
      var entry :- ReadHashEntry(br);
      hashEntries := hashEntries + [entry];
    }
    assert hashEntries == HashEntriesAt(br.data, p, hashTableSize).value;
    return Success(hashEntries);
  }

  /** The `while (true)` loop that reads a key up to its 0 byte. */
  method ReadKey(br: Reader) returns (r: Result<string>)
    modifies br
    ensures r == CStringAt(br.data, old(br.pos))
  {
    ghost var p := br.pos;
    var key := [];
    assert CStringAt(br.data, p) == Prepend(key, CStringAt(br.data, p)) by {
      if CStringAt(br.data, p).Success? {
        assert key + CStringAt(br.data, p).value == CStringAt(br.data, p).value;
      }
    }
    while true
      invariant br.pos == p + |key|
      invariant 0 < |key| ==> br.pos <= |br.data|
      invariant forall j :: p <= j < p + |key| ==> br.data[j] != 0
      invariant forall k :: 0 <= k < |key| ==> key[k] as int == br.data[p + k]
      invariant CStringAt(br.data, p) == Prepend(key, CStringAt(br.data, br.pos))
      decreases |br.data| - br.pos
    {
      var b := br.ReadByte();
      if b.Failure? {
        return Failure(b.error);
      }
      if b.value == 0 {
        assert key + [] == key;
        return Success(key);
      }
      PrependAppend(key, ByteChar(b.value), CStringAt(br.data, br.pos));
      key := key + [ByteChar(b.value)];
    }
  }

  /** A key prefix in front of the result of a read. */
  function Prepend(prefix: string, r: Result<string>): Result<string> {
    if r.Failure? then r else Success(prefix + r.value)
  }

  lemma {:induction false} PrependAppend(prefix: string, c: char, r: Result<string>)
    ensures Prepend(prefix, Prepend([c], r)) == Prepend(prefix + [c], r)
  {
    if r.Success? {
      assert prefix + ([c] + r.value) == (prefix + [c]) + r.value;
    }
  }

  /** The seeks and reads for one active entry. */
  method ReadEntry(br: Reader, e: HashTableEntry) returns (r: Result<(string, string)>)
    modifies br
    ensures r == EntryItem(br.data, e)
  {
    var seek := br.Seek(e.nameString);
    var bytes :- br.ReadBytes(e.nameLength - 1);
    var value := AsciiString(bytes);
    seek := br.Seek(e.indexString);
    var key :- ReadKey(br);
    return Success((key, value));
  }

  // ---------------------------------------------------------------------------
  // The dictionary object

  /** TextDictionary: the lookup table that the constructor fills and Translate reads. */
  class TextDictionary {
    var lookupTable: map<string, string>

    constructor ()
      ensures lookupTable == map[]
    {
      lookupTable := map[];
    }

    /** One assignment per kept line of the English table, in order. */
    method LoadDictionary(text: seq<string>) returns (r: Result<()>)
      modifies this
      ensures lookupTable == DictionaryLoad(old(lookupTable), text).table
      ensures r == DictionaryLoad(old(lookupTable), text).outcome
    {
      ghost var goal := DictionaryLoad(lookupTable, text);
      for i := 0 to |text|
        invariant Store(lookupTable, RowItems(KeptLines(text[i..]))) == goal
      {
        KeptStep(text, i);
        var line := text[i];
        StoreStep(lookupTable, RowItems(if Kept(line) then [line] else []), RowItems(KeptLines(text[i + 1..])));
        if Kept(line) {
          var row := SplitAtMost(line, 3);
          SplitAtMostCount(line, 3);
          var value := Unquote(Trim(row[2]));
          if value.Failure? {
            return Failure(value.error);
          }
          lookupTable := lookupTable[Trim(row[1]) := value.value];
        }
      }
      assert text[|text|..] == [];
      return Success(());
    }

    /** The header, the index list and the hash entries, then one assignment per active
        entry, in table order. */
    method LoadExpansionTable(data: seq<byte>) returns (r: Result<()>)
      modifies this
      ensures lookupTable == ExpansionLoad(old(lookupTable), data).table
      ensures r == ExpansionLoad(old(lookupTable), data).outcome
    {
      var br := new Reader(data);
      var header := ReadExpansionHeader(br);
      if header.Failure? {
        return Failure(header.error);
      }
      var numberOfElements, hashTableSize := header.value.0, header.value.1;
      var elementIndexes := ReadElementIndexes(br, numberOfElements);
      if elementIndexes.Failure? {
        return Failure(elementIndexes.error);
      }
      var hashEntries := ReadHashEntries(br, hashTableSize);
      if hashEntries.Failure? {
        return Failure(hashEntries.error);
      }
      r := AssignEntries(br, hashEntries.value);
    }

    /** The foreach over the active entries: the seeks and reads for each, then its
        assignment. */
    method AssignEntries(br: Reader, entries: seq<HashTableEntry>) returns (r: Result<()>)
      modifies this, br
      ensures var l := Store(old(lookupTable), EntryItems(br.data, Active(entries)));
        lookupTable == l.table && r == l.outcome
    {
      ghost var data := br.data;
      ghost var goal := Store(lookupTable, EntryItems(data, Active(entries)));
      for i := 0 to |entries|
        invariant Store(lookupTable, EntryItems(data, Active(entries[i..]))) == goal
      {
        ActiveStep(data, entries, i);
        var hashEntry := entries[i];
        StoreStep(lookupTable, EntryItems(data, if hashEntry.isActive then [hashEntry] else []),
          EntryItems(data, Active(entries[i + 1..])));
        if hashEntry.isActive {
          var item := ReadEntry(br, hashEntry);
          if item.Failure? {
            return Failure(item.error);
          }
          lookupTable := lookupTable[item.value.0 := item.value.1];
        }
      }
      assert entries[|entries|..] == [];
      return Success(());
    }

    /** The value stored for key, or KeyNotFoundException. */
    function Translate(key: string): (r: Result<string>)
      reads this
      ensures r.Success? <==> key in lookupTable
      ensures r.Success? ==> r.value == lookupTable[key]
      ensures r.Failure? ==> r.error == KeyNotFound(key)
    {
      if key in lookupTable then Success(lookupTable[key]) else Failure(KeyNotFound(key))
    }
  }

  /** The constructor: a dictionary is built only when both tables load. */
  method Create(text: seq<string>, data: seq<byte>) returns (r: Result<TextDictionary>)
    ensures Load(text, data).Failure? ==> r == Failure(Load(text, data).error)
    ensures Load(text, data).Success? ==>
      r.Success? && fresh(r.value) && r.value.lookupTable == Load(text, data).value
  {
    var dictionary := new TextDictionary();
    var english := dictionary.LoadDictionary(text);
    if english.Failure? {
      return Failure(english.error);
    }
    var expansion := dictionary.LoadExpansionTable(data);
    if expansion.Failure? {
      return Failure(expansion.error);
    }
    return Success(dictionary);
  }

  // ---------------------------------------------------------------------------
  // One step of each loop

  /** The kept lines of text[i..] are text[i], if kept, then the kept lines of text[i + 1..]. */
  lemma {:induction false} KeptStep(text: seq<string>, i: nat)
    requires i < |text|
    ensures var head := if Kept(text[i]) then [text[i]] else [];
      KeptLines(text[i..]) == head + KeptLines(text[i + 1..]) &&
      RowItems(KeptLines(text[i..])) == RowItems(head) + RowItems(KeptLines(text[i + 1..]))
  {
    var head := if Kept(text[i]) then [text[i]] else [];
    var tail := KeptLines(text[i + 1..]);
    assert text[i..][0] == text[i];
    assert text[i..][1..] == text[i + 1..];
    assert KeptLines(text[i..]) == head + tail;
    RowItemsAppend(head, tail);
  }

  lemma {:induction false} RowItemsAppend(a: seq<string>, b: seq<string>)
    ensures RowItems(a + b) == RowItems(a) + RowItems(b)
  {
    var ab := a + b;
    forall k | 0 <= k < |ab|
      ensures RowItems(ab)[k] == (RowItems(a) + RowItems(b))[k]
    {
      if k < |a| {
        assert ab[k] == a[k];
      } else {
        assert ab[k] == b[k - |a|];
      }
    }
  }

  /** The active entries of entries[i..] are entries[i], if active, then those of entries[i + 1..]. */
  lemma {:induction false} ActiveStep(data: seq<byte>, entries: seq<HashTableEntry>, i: nat)
    requires i < |entries|
    ensures var head := if entries[i].isActive then [entries[i]] else [];
      Active(entries[i..]) == head + Active(entries[i + 1..]) &&
      EntryItems(data, Active(entries[i..])) == EntryItems(data, head) + EntryItems(data, Active(entries[i + 1..]))
  {
    assert entries[i..][0] == entries[i];
    assert entries[i..][1..] == entries[i + 1..];
  }

  /** The Where filter over text[i..] keeps exactly the kept lines, in their order. */
  lemma {:induction false} KeptLinesPicks(text: seq<string>, i: nat)
    requires i <= |text|
    ensures Picks(text, i, KeptLines(text[i..]), Positions(text, Kept, i), Kept)
    decreases |text| - i
  {
    if i == |text| {
      assert text[i..] == [];
    } else {
      KeptLinesPicks(text, i + 1);
      assert text[i..][0] == text[i];
      assert text[i..][1..] == text[i + 1..];
      PicksStep(text, i, KeptLines(text[i + 1..]), Positions(text, Kept, i + 1), Kept);
    }
  }

  /** Every line the filter accepts reaches the load. */
  lemma {:induction false} KeptLinesComplete(text: seq<string>, k: nat)
    requires k < |text| && Kept(text[k])
    ensures text[k] in KeptLines(text)
  {
    KeptLinesPicks(text, 0);
    assert text[0..] == text;
    var idx := Positions(text, Kept, 0);
    var j :| 0 <= j < |idx| && idx[j] == k;
    assert KeptLines(text)[j] == text[k];
  }

  predicate IsActive(e: HashTableEntry) {
    e.isActive
  }

  /** The Where filter over entries[i..] keeps exactly the active entries, in table order. */
  lemma {:induction false} ActivePicks(entries: seq<HashTableEntry>, i: nat)
    requires i <= |entries|
    ensures Picks(entries, i, Active(entries[i..]), Positions(entries, IsActive, i), IsActive)
    decreases |entries| - i
  {
    if i == |entries| {
      assert entries[i..] == [];
    } else {
      ActivePicks(entries, i + 1);
      assert entries[i..][0] == entries[i];
      assert entries[i..][1..] == entries[i + 1..];
      PicksStep(entries, i, Active(entries[i + 1..]), Positions(entries, IsActive, i + 1), IsActive);
    }
  }

  /** Every active entry reaches the assignment loop. */
  lemma {:induction false} ActiveComplete(entries: seq<HashTableEntry>, k: nat)
    requires k < |entries| && entries[k].isActive
    ensures entries[k] in Active(entries)
  {
    ActivePicks(entries, 0);
    assert entries[0..] == entries;
    var idx := Positions(entries, IsActive, 0);
    assert IsActive(entries[k]);
    var j :| 0 <= j < |idx| && idx[j] == k;
    assert Active(entries)[j] == entries[k];
  }
}
