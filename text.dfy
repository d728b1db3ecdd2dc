/** String helpers the resolver relies on: ordinal case-insensitive equality
    (restricted to ASCII letters) and splitting a path on a separator character. */
module Text {

  /** Maps an upper-case ASCII letter to its lower-case form; every other character is unchanged. */
  function FoldCase(c: char): (f: char)
    ensures !('A' <= f <= 'Z')
    ensures 'A' <= c <= 'Z' ==> 'a' <= f <= 'z' && f as int - c as int == 'a' as int - 'A' as int
    ensures !('A' <= c <= 'Z') ==> f == c
  {
    if 'A' <= c <= 'Z' then (c as int + 32) as char else c
  }

  /** Two characters fold alike exactly when they are equal or are the two cases of one ASCII letter. */
  lemma FoldCaseAlike(c: char, d: char)
    ensures FoldCase(c) == FoldCase(d) <==>
              || c == d
              || ('A' <= c <= 'Z' && d as int == c as int + 32)
              || ('A' <= d <= 'Z' && c as int == d as int + 32)
  {
  }

  /** The string with every character folded. */
  function Folded(s: string): (t: string)
    ensures |t| == |s| && forall i | 0 <= i < |s| :: t[i] == FoldCase(s[i])
  {
    if s == [] then [] else [FoldCase(s[0])] + Folded(s[1..])
  }

  /** Case-insensitive ordinal equality of two strings (ASCII folding only). */
  predicate EqualsIgnoreCase(a: string, b: string)
  {
    |a| == |b| && forall i | 0 <= i < |a| :: FoldCase(a[i]) == FoldCase(b[i])
  }

  /** Case-insensitive equality is equality of the folded strings. */
  lemma EqualsIgnoreCaseIsFoldedEquality(a: string, b: string)
    ensures EqualsIgnoreCase(a, b) <==> Folded(a) == Folded(b)
  {
  }

  /** Case-insensitive equality is an equivalence, so a match may be compared against either spelling. */
  lemma EqualsIgnoreCaseSubstitute(x: string, s: string, t: string)
    requires EqualsIgnoreCase(s, t)
    ensures EqualsIgnoreCase(x, s) == EqualsIgnoreCase(x, t)
    ensures EqualsIgnoreCase(t, s)
  {
  }

  predicate EndsWith(s: string, suffix: string)
  {
    |suffix| <= |s| && s[|s| - |suffix|..] == suffix
  }

  /** Splits `s` at every occurrence of `sep`, keeping empty pieces, as String.Split(char) does:
      there is always at least one piece, and no piece contains the separator. */
  function Split(s: string, sep: char): (parts: seq<string>)
    ensures |parts| >= 1
    ensures forall i | 0 <= i < |parts| :: sep !in parts[i]
  {
    if s == [] then [""]
    else
      var rest := Split(s[1..], sep);
      if s[0] == sep then [""] + rest
      else [[s[0]] + rest[0]] + rest[1..]
  }

  /** Joins pieces with `sep` between them; the inverse of Split. */
  function Join(parts: seq<string>, sep: char): string
    requires |parts| >= 1
  {
    if |parts| == 1 then parts[0] else parts[0] + [sep] + Join(parts[1..], sep)
  }

  /** Splitting and re-joining gives back the original string. */
  lemma {:induction false} JoinSplit(s: string, sep: char)
    ensures Join(Split(s, sep), sep) == s
  {
    if s != [] {
      var rest := Split(s[1..], sep);
      JoinSplit(s[1..], sep);
      if s[0] == sep {
        assert Split(s, sep) == [""] + rest;
        assert ([""] + rest)[1..] == rest;
      } else if |rest| == 1 {
        assert Split(s, sep) == [[s[0]] + rest[0]];
      } else {
        var parts := Split(s, sep);
        assert parts == [[s[0]] + rest[0]] + rest[1..];
        assert parts[1..] == rest[1..];
        assert Join(rest, sep) == rest[0] + [sep] + Join(rest[1..], sep);
      }
    }
  }

  lemma {:induction false} SplitWithoutSeparator(w: string, sep: char)
    requires sep !in w
    ensures Split(w, sep) == [w]
  {
    if w != [] {
      SplitWithoutSeparator(w[1..], sep);
      assert [w[0]] + w[1..] == w;
    }
  }

  lemma {:induction false} SplitAfterPiece(w: string, t: string, sep: char)
    requires sep !in w
    ensures Split(w + [sep] + t, sep) == [w] + Split(t, sep)
  {
    var s := w + [sep] + t;
    if w == [] {
      assert s[1..] == t;
    } else {
      assert s[0] == w[0];
      assert s[1..] == w[1..] + [sep] + t;
      SplitAfterPiece(w[1..], t, sep);
      assert [w[0]] + w[1..] == w;
    }
  }

  /** Joining separator-free pieces and splitting again gives back the pieces. */
  lemma {:induction false} SplitJoin(parts: seq<string>, sep: char)
    requires |parts| >= 1
    requires forall i | 0 <= i < |parts| :: sep !in parts[i]
    ensures Split(Join(parts, sep), sep) == parts
  {
    if |parts| == 1 {
      SplitWithoutSeparator(parts[0], sep);
    } else {
      SplitJoin(parts[1..], sep);
      SplitAfterPiece(parts[0], Join(parts[1..], sep), sep);
      assert [parts[0]] + parts[1..] == parts;
    }
  }

  /** Two sequences of strings that agree piece by piece up to case. */
  predicate PairwiseEqualsIgnoreCase(xs: seq<string>, ys: seq<string>)
  {
    |xs| == |ys| && forall i | 0 <= i < |xs| :: EqualsIgnoreCase(xs[i], ys[i])
  }

  /** Splitting on '.' commutes with case folding: paths equal up to case split into
      the same number of pieces, equal up to case piece by piece. */
  lemma {:induction false} SplitIgnoresCase(a: string, b: string)
    requires EqualsIgnoreCase(a, b)
    ensures PairwiseEqualsIgnoreCase(Split(a, '.'), Split(b, '.'))
  {
    if a != [] {
      assert FoldCase(a[0]) == FoldCase(b[0]);
      assert a[0] == '.' <==> b[0] == '.';
      assert EqualsIgnoreCase(a[1..], b[1..]) by {
        forall i | 0 <= i < |a| - 1 ensures FoldCase(a[1..][i]) == FoldCase(b[1..][i]) {
          assert a[1..][i] == a[i + 1] && b[1..][i] == b[i + 1];
        }
      }
      SplitIgnoresCase(a[1..], b[1..]);
      var ra, rb := Split(a[1..], '.'), Split(b[1..], '.');
      if a[0] != '.' {
        var pa, pb := [a[0]] + ra[0], [b[0]] + rb[0];
        assert EqualsIgnoreCase(pa, pb) by {
          forall i | 0 <= i < |pa| ensures FoldCase(pa[i]) == FoldCase(pb[i]) {
            if i > 0 {
              assert pa[i] == ra[0][i - 1] && pb[i] == rb[0][i - 1];
            }
          }
        }
      }
    }
  }
}
