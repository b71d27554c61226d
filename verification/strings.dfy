/** The few operations of Go's `strings` package that the tool uses:
    `HasPrefix`, `HasSuffix`, `Split` on a one-character separator, and the
    inverse of `Split`, joining with a separator; and the case-blind
    comparison that the prompt library applies to typed answers. */
module Strings {

  predicate HasPrefix(s: string, prefix: string)
  {
    |prefix| <= |s| && s[..|prefix|] == prefix
  }

  predicate HasSuffix(s: string, suffix: string)
  {
    |suffix| <= |s| && s[|s| - |suffix|..] == suffix
  }

  /** Lower case of an ASCII letter; any other character is itself. */
  function Lower(c: char): char
  {
    if 'A' <= c <= 'Z' then (c as int + 32) as char else c
  }

  /** Equal once the case of ASCII letters is ignored. */
  predicate EqualFold(a: string, b: string)
  {
    |a| == |b| && forall i :: 0 <= i < |a| ==> Lower(a[i]) == Lower(b[i])
  }

  lemma Regroup(a: string, b: string, c: string)
    ensures a + b + c == a + (b + c)
  {
  }

  lemma Associate(a: string, b: string, c: string, d: string)
    ensures a + b + c + d == a + (b + c + d)
  {
  }

  /** `parts[0] + sep + parts[1] + ... + sep + parts[n-1]`; empty for no parts. */
  function JoinWith(parts: seq<string>, sep: string): string
  {
    if |parts| == 0 then ""
    else if |parts| == 1 then parts[0]
    else JoinWith(parts[..|parts| - 1], sep) + sep + parts[|parts| - 1]
  }

  /** Go's `strings.Split(s, [sep])`: the maximal pieces of `s` that do not
      contain `sep`, in order. Splitting the empty string yields one empty
      piece, never an empty list. */
  function Split(s: string, sep: char): (parts: seq<string>)
    ensures |parts| > 0
    decreases |s|
  {
    if |s| == 0 then [""]
    else
      var pre := Split(s[..|s| - 1], sep);
      var c := s[|s| - 1];
      if c == sep then pre + [""]
      else pre[..|pre| - 1] + [pre[|pre| - 1] + [c]]
  }

  /** No piece of a split contains the separator. */
  lemma {:induction false} SplitPieces(s: string, sep: char)
    ensures forall i :: 0 <= i < |Split(s, sep)| ==> sep !in Split(s, sep)[i]
    decreases |s|
  {
    if |s| > 0 {
      var init := s[..|s| - 1];
      var c := s[|s| - 1];
      var p := Split(init, sep);
      var q := Split(s, sep);
      assert init + [c] == s;
      SplitPieces(init, sep);
      SplitSnoc(init, c, sep);
      forall i | 0 <= i < |q|
        ensures sep !in q[i]
      {
        if i < |p| - 1 || (c == sep && i < |p|) {
          assert q[i] == p[i];
        } else if c != sep {
          assert q[i] == p[|p| - 1] + [c];
        }
      }
    }
  }

  /** Joining the pieces of a split with the separator gives back the input. */
  lemma {:induction false} JoinSplit(s: string, sep: char)
    ensures JoinWith(Split(s, sep), [sep]) == s
    decreases |s|
  {
    if |s| > 0 {
      var init := s[..|s| - 1];
      var c := s[|s| - 1];
      var pre := Split(init, sep);
      assert Split(s, sep) == Split(init + [c], sep) by {
        assert init + [c] == s;
      }
      SplitSnoc(init, c, sep);
      JoinSplit(init, sep);
      if c == sep {
        JoinSnoc(pre, "", [sep]);
        assert init + [sep] + "" == s;
      } else {
        JoinExtendLast(pre, [sep], [c]);
        assert init + [c] == s;
      }
    }
  }

  /** Joining one more piece adds a separator and the piece. */
  lemma JoinSnoc(parts: seq<string>, p: string, sep: string)
    requires |parts| > 0
    ensures JoinWith(parts + [p], sep) == JoinWith(parts, sep) + sep + p
  {
    assert (parts + [p])[..|parts|] == parts;
  }

  /** Extending the last piece extends the join. */
  lemma JoinExtendLast(parts: seq<string>, sep: string, t: string)
    requires |parts| > 0
    ensures JoinWith(ExtendLast(parts, t), sep) == JoinWith(parts, sep) + t
  {
    var front := parts[..|parts| - 1];
    var last := parts[|parts| - 1];
    var q := ExtendLast(parts, t);
    assert q[..|q| - 1] == front;
    if |parts| > 1 {
      assert front + [last] == parts;
      Regroup(JoinWith(front, sep) + sep, last, t);
    }
  }

  /** Splitting a join of separator-free, non-empty-list pieces gives back the pieces. */
  lemma {:induction false} SplitJoin(parts: seq<string>, sep: char)
    requires |parts| > 0
    requires forall i :: 0 <= i < |parts| ==> sep !in parts[i]
    ensures Split(JoinWith(parts, [sep]), sep) == parts
    decreases |parts|
  {
    if |parts| == 1 {
      NoSepSplit(parts[0], sep);
    } else {
      var front := parts[..|parts| - 1];
      var last := parts[|parts| - 1];
      SplitJoin(front, sep);
      var j := JoinWith(front, [sep]);
      AppendSplit(j + [sep], last, sep);
      SplitSep(j, sep);
      assert parts == front + [last];
      assert JoinWith(parts, [sep]) == (j + [sep]) + last;
      var p := Split(j + [sep], sep);
      assert p == front + [""];
      assert ExtendLast(p, last) == parts by {
        assert p[..|p| - 1] == front;
        assert p[|p| - 1] + last == last;
      }
    }
  }

  /** A separator-free string splits to itself. */
  lemma {:induction false} NoSepSplit(s: string, sep: char)
    requires sep !in s
    ensures Split(s, sep) == [s]
    decreases |s|
  {
    if |s| > 0 {
      NoSepSplit(s[..|s| - 1], sep);
      assert s[..|s| - 1] + [s[|s| - 1]] == s;
    }
  }

  /** A trailing separator opens a new, empty piece. */
  lemma SplitSep(s: string, sep: char)
    ensures Split(s + [sep], sep) == Split(s, sep) + [""]
  {
    assert (s + [sep])[..|s|] == s;
  }

  /** `parts` with `t` appended to its last piece. */
  function ExtendLast(parts: seq<string>, t: string): (r: seq<string>)
    requires |parts| > 0
    ensures |r| == |parts| && r[|r| - 1] == parts[|parts| - 1] + t
  {
    parts[..|parts| - 1] + [parts[|parts| - 1] + t]
  }

  lemma ExtendLastTwice(parts: seq<string>, t: string, u: string)
    requires |parts| > 0
    ensures ExtendLast(ExtendLast(parts, t), u) == ExtendLast(parts, t + u)
  {
    var q := ExtendLast(parts, t);
    assert q[..|q| - 1] == parts[..|parts| - 1];
    assert (parts[|parts| - 1] + t) + u == parts[|parts| - 1] + (t + u);
  }

  /** Splitting one more character: a separator opens a new piece, any other
      character extends the last one. */
  lemma SplitSnoc(s: string, c: char, sep: char)
    ensures Split(s + [c], sep) == if c == sep then Split(s, sep) + [""] else ExtendLast(Split(s, sep), [c])
  {
    assert (s + [c])[..|s|] == s;
  }

  /** Appending separator-free text extends the last piece. */
  lemma {:induction false} AppendSplit(s: string, t: string, sep: char)
    requires sep !in t
    ensures Split(s + t, sep) == ExtendLast(Split(s, sep), t)
    decreases |t|
  {
    var p := Split(s, sep);
    if |t| == 0 {
      assert s + t == s;
      assert p[|p| - 1] + t == p[|p| - 1];
      assert p[..|p| - 1] + [p[|p| - 1]] == p;
    } else {
      var t' := t[..|t| - 1];
      var c := t[|t| - 1];
      assert c != sep;
      AppendSplit(s, t', sep);
      SplitSnoc(s + t', c, sep);
      SnocAssoc(s, t);
      ExtendLastTwice(p, t', [c]);
    }
  }

  lemma SnocAssoc(s: string, t: string)
    requires |t| > 0
    ensures (s + t[..|t| - 1]) + [t[|t| - 1]] == s + t
    ensures t[..|t| - 1] + [t[|t| - 1]] == t
  {
  }
}
