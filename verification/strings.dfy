/** Python string helpers the vocabulary and field builders use:
    `sep.join(parts)` and `f"{s:<width}"`.  `Split` (`s.split(c)`) is not
    called by either builder; it is the inverse of `join` used to prove
    that `join` is injective on separator-free words. */
module Strings {

  /** The lengths of all parts added up. */
  function TotalLength(parts: seq<string>): nat
  {
    if |parts| == 0 then 0 else |parts[0]| + TotalLength(parts[1..])
  }

  /** `sep.join(parts)`: no parts give "". */
  function Join(parts: seq<string>, sep: string): (s: string)
    ensures |parts| == 0 ==> s == ""
  {
    if |parts| == 0 then ""
    else if |parts| == 1 then parts[0]
    else parts[0] + sep + Join(parts[1..], sep)
  }

  /** A join is as long as its parts together plus one separator between
      each neighbouring pair. */
  lemma {:induction false} JoinTotalLength(parts: seq<string>, sep: string)
    requires |parts| >= 1
    ensures |Join(parts, sep)| == TotalLength(parts) + (|parts| - 1) * |sep|
  {
    if |parts| > 1 {
      JoinTotalLength(parts[1..], sep);
    }
  }

  /** `s.split(c)`: the pieces between occurrences of `c`; never empty. */
  function Split(s: string, c: char): (parts: seq<string>)
    ensures |parts| >= 1
  {
    if |s| == 0 then [""]
    else
      var rest := Split(s[1..], c);
      if s[0] == c then [""] + rest
      else [[s[0]] + rest[0]] + rest[1..]
  }

  /** Splitting a string that starts with a separator-free word glues that
      word onto the first piece. */
  lemma {:induction false} SplitPrepend(w: string, rest: string, c: char)
    requires c !in w
    ensures Split(w + rest, c) == [w + Split(rest, c)[0]] + Split(rest, c)[1..]
  {
    if |w| > 0 {
      SplitPrepend(w[1..], rest, c);
      assert (w + rest)[1..] == w[1..] + rest;
      assert [w[0]] + (w[1..] + Split(rest, c)[0]) == w + Split(rest, c)[0];
    } else {
      var parts := Split(rest, c);
      assert w + rest == rest;
      assert w + parts[0] == parts[0];
      assert [parts[0]] + parts[1..] == parts;
    }
  }

  /** Splitting undoes joining, as long as no part contains the separator. */
  lemma {:induction false} SplitJoin(parts: seq<string>, c: char)
    requires |parts| >= 1
    requires forall i :: 0 <= i < |parts| ==> c !in parts[i]
    ensures Split(Join(parts, [c]), c) == parts
  {
    if |parts| == 1 {
      assert Join(parts, [c]) == parts[0] + "";
      SplitPrepend(parts[0], "", c);
      assert Split("", c) == [""];
      assert parts[0] + "" == parts[0];
    } else {
      var tail := Join(parts[1..], [c]);
      SplitJoin(parts[1..], c);
      assert Join(parts, [c]) == parts[0] + ([c] + tail);
      SplitPrepend(parts[0], [c] + tail, c);
      assert ([c] + tail)[1..] == tail;
      assert Split([c] + tail, c) == [""] + parts[1..];
      assert parts[0] + "" == parts[0];
      assert parts == [parts[0]] + parts[1..];
    }
  }

  /** A join of at least one part is at least as long as its first part. */
  lemma JoinLength(parts: seq<string>, sep: string)
    requires |parts| >= 1
    ensures |Join(parts, sep)| >= |parts[0]|
  {
  }

  /** Every part is non-empty and free of the separator `c`. */
  predicate Words(parts: seq<string>, c: char)
  {
    forall i :: 0 <= i < |parts| ==> c !in parts[i] && parts[i] != ""
  }

  /** Joining is injective on lists of non-empty, separator-free parts. */
  lemma JoinInjective(a: seq<string>, b: seq<string>, c: char)
    requires Words(a, c) && Words(b, c)
    requires Join(a, [c]) == Join(b, [c])
    ensures a == b
  {
    if |a| >= 1 && |b| >= 1 {
      SplitJoin(a, c);
      SplitJoin(b, c);
    } else if |a| >= 1 {
      JoinLength(a, [c]);
    } else if |b| >= 1 {
      JoinLength(b, [c]);
    }
  }

  /** Where part k starts in `Join(parts, [sep])`: the lengths of the parts
      before it, plus one separator after each. */
  function Offset(parts: seq<string>, k: nat): nat
    requires k <= |parts|
  {
    if k == 0 then 0 else |parts[0]| + 1 + Offset(parts[1..], k - 1)
  }

  /** Every part sits at its offset in the joined string, followed by the
      separator unless it is the last part, and the joined string ends right
      after the last part. */
  lemma {:induction false} JoinLayout(parts: seq<string>, sep: char, k: nat)
    requires k < |parts|
    ensures Offset(parts, k) + |parts[k]| <= |Join(parts, [sep])|
    ensures Join(parts, [sep])[Offset(parts, k)..Offset(parts, k) + |parts[k]|] == parts[k]
    ensures k + 1 < |parts| ==> Offset(parts, k) + |parts[k]| < |Join(parts, [sep])|
                                && Join(parts, [sep])[Offset(parts, k) + |parts[k]|] == sep
    ensures k + 1 == |parts| ==> |Join(parts, [sep])| == Offset(parts, k) + |parts[k]|
  {
    var s := Join(parts, [sep]);
    if |parts| > 1 {
      var head := parts[0] + [sep];
      var tail := Join(parts[1..], [sep]);
      assert s == head + tail;
      if k > 0 {
        JoinLayout(parts[1..], sep, k - 1);
        assert parts[1..][k - 1] == parts[k];
        ShiftedSlice(head, tail, Offset(parts[1..], k - 1), |parts[k]|);
      } else {
        assert s[..|parts[0]|] == parts[0];
      }
    } else {
      assert s == parts[0];
    }
  }

  /** Part k of a join is found at its offset. */
  lemma PartAt(joined: string, parts: seq<string>, sep: char, k: nat, at: nat, part: string)
    requires joined == Join(parts, [sep]) && k < |parts|
    requires at == Offset(parts, k) && part == parts[k]
    ensures at + |part| <= |joined| && joined[at..at + |part|] == part
  {
    JoinLayout(parts, sep, k);
  }

  /** The character right after part k of a join, when k is not the last part, is the separator. */
  lemma SeparatorAfter(joined: string, parts: seq<string>, sep: char, k: nat, at: nat)
    requires joined == Join(parts, [sep]) && k + 1 < |parts|
    requires at == Offset(parts, k) + |parts[k]|
    ensures at < |joined| && joined[at] == sep
  {
    JoinLayout(parts, sep, k);
  }

  /** A slice of `t` sits |h| places further on in `h + t`. */
  lemma ShiftedSlice(h: string, t: string, o: nat, n: nat)
    requires o + n <= |t|
    ensures (h + t)[|h| + o..|h| + o + n] == t[o..o + n]
    ensures o + n < |t| ==> (h + t)[|h| + o + n] == t[o + n]
  {
  }

  /** When every part has the same width `w`, part k starts at k * (w + 1). */
  lemma {:induction false} UniformOffset(parts: seq<string>, w: nat, k: nat)
    requires k <= |parts|
    requires forall i :: 0 <= i < |parts| ==> |parts[i]| == w
    ensures Offset(parts, k) == k * (w + 1)
  {
    if k > 0 {
      UniformOffset(parts[1..], w, k - 1);
    }
  }

  /** Joining n >= 1 parts of width `w` with a one-character separator
      gives (w + 1) * n - 1 characters. */
  lemma UniformJoinLength(parts: seq<string>, w: nat, sep: char)
    requires forall i :: 0 <= i < |parts| ==> |parts[i]| == w
    requires |parts| >= 1
    ensures |Join(parts, [sep])| == (w + 1) * |parts| - 1
  {
    var n := |parts|;
    JoinLayout(parts, sep, n - 1);
    UniformOffset(parts, w, n - 1);
    assert (n - 1) * (w + 1) + w == (w + 1) * n - 1;
  }

  /** Part k of equal-width parts occupies columns (w + 1) * k up to
      (w + 1) * k + w of the join, followed by the separator unless it is
      the last part. */
  lemma UniformJoinColumn(parts: seq<string>, w: nat, sep: char, k: nat)
    requires forall i :: 0 <= i < |parts| ==> |parts[i]| == w
    requires k < |parts|
    ensures (w + 1) * k + w <= |Join(parts, [sep])|
    ensures Join(parts, [sep])[(w + 1) * k..(w + 1) * k + w] == parts[k]
    ensures k + 1 < |parts| ==> (w + 1) * k + w < |Join(parts, [sep])|
                                && Join(parts, [sep])[(w + 1) * k + w] == sep
  {
    JoinLayout(parts, sep, k);
    UniformOffset(parts, w, k);
    assert k * (w + 1) == (w + 1) * k;
  }

  /** `n` spaces. */
  function Spaces(n: nat): (s: string)
    ensures |s| == n
    ensures forall i :: 0 <= i < n ==> s[i] == ' '
  {
    seq(n, _ => ' ')
  }

  /** `f"{s:<width}"`: `s` left-justified with trailing spaces; never truncated. */
  function LeftJustify(s: string, width: nat): (r: string)
    ensures |r| == if |s| < width then width else |s|
    ensures r[..|s|] == s
    ensures forall i :: |s| <= i < |r| ==> r[i] == ' '
  {
    if |s| < width then s + Spaces(width - |s|) else s
  }
}
