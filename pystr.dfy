/** The two Python string built-ins the updater depends on:
    `str.strip()` with no argument and `str.split(sep)` with a
    one-character separator. */
module PyStr {

  /** Python's `str.isspace()` for one character: the ASCII controls
      TAB, LF, VT, FF, CR, the four separators 0x1C-0x1F, SPACE, and the
      Unicode whitespace NEL, NBSP, OGHAM SPACE MARK, EN QUAD .. HAIR SPACE,
      LINE and PARAGRAPH SEPARATOR, NARROW NBSP, MEDIUM MATHEMATICAL SPACE
      and IDEOGRAPHIC SPACE. */
  predicate IsSpace(c: char)
  {
    var n := c as int;
    (0x09 <= n <= 0x0D) || (0x1C <= n <= 0x20) || n == 0x85 || n == 0xA0 ||
    n == 0x1680 || (0x2000 <= n <= 0x200A) || n == 0x2028 || n == 0x2029 ||
    n == 0x202F || n == 0x205F || n == 0x3000
  }

  predicate AllSpace(s: string)
  {
    forall k :: 0 <= k < |s| ==> IsSpace(s[k])
  }

  /** True when `s` neither starts nor ends with whitespace. */
  predicate Trimmed(s: string)
  {
    s == [] || (!IsSpace(s[0]) && !IsSpace(s[|s| - 1]))
  }

  /** `s.lstrip()`: `s` without its leading whitespace. */
  function LStrip(s: string): (r: string)
    ensures |r| <= |s|
    ensures r == [] || !IsSpace(r[0])
  {
    if |s| > 0 && IsSpace(s[0]) then LStrip(s[1..]) else s
  }

  /** `s.rstrip()`: `s` without its trailing whitespace. */
  function RStrip(s: string): (r: string)
    ensures |r| <= |s|
    ensures r == [] || !IsSpace(r[|r| - 1])
  {
    if |s| > 0 && IsSpace(s[|s| - 1]) then RStrip(s[..|s| - 1]) else s
  }

  /** LStrip keeps a suffix and cuts away only whitespace. */
  lemma {:induction false} LStripIsSuffix(s: string)
    ensures LStrip(s) == s[|s| - |LStrip(s)|..]
    ensures AllSpace(s[..|s| - |LStrip(s)|])
    decreases |s|
  {
    if |s| > 0 && IsSpace(s[0]) {
      LStripIsSuffix(s[1..]);
      var r := LStrip(s[1..]);
      assert s[..|s| - |r|] == [s[0]] + s[1..][..|s| - 1 - |r|];
    }
  }

  /** RStrip keeps a prefix and cuts away only whitespace. */
  lemma {:induction false} RStripIsPrefix(s: string)
    ensures RStrip(s) == s[..|RStrip(s)|]
    ensures AllSpace(s[|RStrip(s)|..])
    decreases |s|
  {
    if |s| > 0 && IsSpace(s[|s| - 1]) {
      RStripIsPrefix(s[..|s| - 1]);
      var r := RStrip(s[..|s| - 1]);
      assert s[|r|..] == s[..|s| - 1][|r|..] + [s[|s| - 1]];
    }
  }

  /** `s` is `r` with the whitespace `s[..i]` before it and the whitespace
      after it. */
  predicate Surrounds(s: string, i: nat, r: string)
  {
    i + |r| <= |s| && s[i..i + |r|] == r && AllSpace(s[..i]) && AllSpace(s[i + |r|..])
  }

  /** `s.strip()`: `s` without its leading and trailing whitespace. */
  function Strip(s: string): (r: string)
    ensures Trimmed(r) && |r| <= |s|
  {
    var l := LStrip(s);
    RStripIsPrefix(l);
    var r := RStrip(l);
    assert r != [] ==> r[0] == l[0];
    r
  }

  /** What Strip keeps is a slice of its input, and everything it cuts away
      is whitespace. */
  lemma StripIsSlice(s: string)
    ensures exists i :: Surrounds(s, i, Strip(s))
  {
    var l := LStrip(s);
    var r := RStrip(l);
    LStripIsSuffix(s);
    RStripIsPrefix(l);
    var i := |s| - |l|;
    assert r == Strip(s);
    assert AllSpace(s[..i]);
    assert s[i..i + |r|] == r;
    assert s[i + |r|..] == l[|r|..];
    assert AllSpace(s[i + |r|..]);
    assert Surrounds(s, i, r);
  }

  lemma {:induction false} LStripAllSpacePrefix(a: string, t: string)
    requires AllSpace(a)
    ensures LStrip(a + t) == LStrip(t)
    decreases |a|
  {
    if |a| > 0 {
      assert (a + t)[1..] == a[1..] + t;
      LStripAllSpacePrefix(a[1..], t);
    } else {
      assert a + t == t;
    }
  }

  lemma {:induction false} RStripAllSpaceSuffix(t: string, b: string)
    requires AllSpace(b)
    ensures RStrip(t + b) == RStrip(t)
    decreases |b|
  {
    if |b| > 0 {
      assert (t + b)[..|t + b| - 1] == t + b[..|b| - 1];
      RStripAllSpaceSuffix(t, b[..|b| - 1]);
    } else {
      assert t + b == t;
    }
  }

  /** Strip is determined by its contract: whatever whitespace surrounds a
      trimmed string, stripping gives back exactly that string. */
  lemma StripSurrounded(a: string, r: string, b: string)
    requires AllSpace(a) && AllSpace(b) && Trimmed(r)
    ensures Strip(a + r + b) == r
  {
    assert a + r + b == a + (r + b);
    LStripAllSpacePrefix(a, r + b);
    if r == [] {
      assert r + b == b + [];
      LStripAllSpacePrefix(b, []);
      assert LStrip(a + r + b) == [];
    } else {
      assert (r + b)[0] == r[0];
      assert LStrip(r + b) == r + b;
      RStripAllSpaceSuffix(r, b);
      assert RStrip(r) == r;
    }
  }

  /** A string without surrounding whitespace is left alone. */
  lemma StripTrimmed(s: string)
    requires Trimmed(s)
    ensures Strip(s) == s
  {
    StripSurrounded([], s, []);
    assert [] + s + [] == s;
  }

  /** Stripping twice is stripping once. */
  lemma StripIdempotent(s: string)
    ensures Strip(Strip(s)) == Strip(s)
  {
    StripTrimmed(Strip(s));
  }

  /** The number of characters of `s` before the first `c`; `|s|` when
      there is none. */
  function Find(s: string, c: char): (i: nat)
    ensures i <= |s|
    ensures i < |s| ==> s[i] == c
    ensures forall k :: 0 <= k < i ==> s[k] != c
  {
    if |s| == 0 || s[0] == c then 0 else 1 + Find(s[1..], c)
  }

  lemma FindAbsent(s: string, c: char)
    ensures Find(s, c) == |s| <==> c !in s
  {
  }

  /** The first `sep` of `p + sep + t` is the one right after a
      separator-free `p`. */
  lemma FindAfter(p: string, sep: char, t: string)
    requires sep !in p
    ensures Find(p + [sep] + t, sep) == |p|
  {
    var s := p + [sep] + t;
    assert forall k :: 0 <= k < |p| ==> s[k] == p[k];
    assert s[|p|] == sep;
  }

  /** Python's `s.split(sep)`: the pieces of `s` between occurrences of
      `sep`, in order.  There is always at least one piece (`"".split(".")`
      is `[""]`) and two adjacent separators give an empty piece. */
  function Split(s: string, sep: char): (parts: seq<string>)
    ensures |parts| >= 1
    decreases |s|
  {
    var i := Find(s, sep);
    if i == |s| then [s] else [s[..i]] + Split(s[i + 1..], sep)
  }

  /** Python's `sep.join(parts)`, the inverse of Split. */
  function Join(parts: seq<string>, sep: char): string
  {
    if |parts| == 0 then []
    else if |parts| == 1 then parts[0]
    else parts[0] + [sep] + Join(parts[1..], sep)
  }

  /** A separator-free `p` followed by the separator is split off as the
      first piece. */
  lemma SplitAfterFirst(p: string, sep: char, t: string)
    requires sep !in p
    ensures Split(p + [sep] + t, sep) == [p] + Split(t, sep)
  {
    var s := p + [sep] + t;
    FindAfter(p, sep, t);
    assert s[..|p|] == p;
    assert s[|p| + 1..] == t;
  }

  /** No piece contains the separator. */
  lemma {:induction false} PiecesHaveNoSeparator(s: string, sep: char)
    ensures forall k :: 0 <= k < |Split(s, sep)| ==> sep !in Split(s, sep)[k]
    decreases |s|
  {
    var i := Find(s, sep);
    if i == |s| {
      FindAbsent(s, sep);
    } else {
      var first, rest := s[..i], s[i + 1..];
      PiecesHaveNoSeparator(rest, sep);
      assert forall k :: 0 <= k < i ==> first[k] == s[k];
      assert sep !in first;
      var parts := Split(s, sep);
      SplitUnfold(s, sep);
      assert forall k :: 0 < k < |parts| ==> parts[k] == Split(rest, sep)[k - 1];
    }
  }

  /** Split on a string that holds the separator: the first piece, then
      the split of what follows the first separator. */
  lemma SplitUnfold(s: string, sep: char)
    requires Find(s, sep) < |s|
    ensures Split(s, sep) == [s[..Find(s, sep)]] + Split(s[Find(s, sep) + 1..], sep)
  {
  }

  lemma JoinCons(p: string, rest: seq<string>, sep: char)
    requires |rest| >= 1
    ensures Join([p] + rest, sep) == p + [sep] + Join(rest, sep)
  {
    assert ([p] + rest)[1..] == rest;
  }

  lemma Reassemble(s: string, i: nat, sep: char)
    requires i < |s| && s[i] == sep
    ensures s[..i] + [sep] + s[i + 1..] == s
  {
  }

  /** Joining the pieces again gives back the original string. */
  lemma {:induction false} JoinSplit(s: string, sep: char)
    ensures Join(Split(s, sep), sep) == s
    decreases |s|
  {
    var i := Find(s, sep);
    if i < |s| {
      var rest := s[i + 1..];
      SplitUnfold(s, sep);
      JoinCons(s[..i], Split(rest, sep), sep);
      JoinSplit(rest, sep);
      Reassemble(s, i, sep);
    }
  }

  /** Splitting a join of separator-free pieces gives back the pieces. */
  lemma {:induction false} SplitJoin(parts: seq<string>, sep: char)
    requires |parts| >= 1
    requires forall k :: 0 <= k < |parts| ==> sep !in parts[k]
    ensures Split(Join(parts, sep), sep) == parts
    decreases |parts|
  {
    if |parts| == 1 {
      FindAbsent(parts[0], sep);
    } else {
      var p, rest := parts[0], parts[1..];
      assert sep !in p;
      assert forall k :: 0 <= k < |rest| ==> rest[k] == parts[k + 1];
      SplitJoin(rest, sep);
      assert Join(parts, sep) == p + [sep] + Join(rest, sep);
      SplitAfterFirst(p, sep, Join(rest, sep));
      assert parts == [p] + rest;
    }
  }

  /** `h` occupies positions i .. i+|h| of `s` and is bounded on each side
      by `sep` or by an end of `s`. */
  predicate LabelAt(s: string, sep: char, h: string, i: nat)
  {
    i + |h| <= |s| && s[i..i + |h|] == h &&
    (i == 0 || s[i - 1] == sep) &&
    (i + |h| == |s| || s[i + |h|] == sep)
  }

  /** Shifting a delimited occurrence in `s[j + 1..]` to one in `s`,
      where `s[j]` is a separator. */
  lemma LabelAtShift(s: string, sep: char, h: string, j: nat, i': nat)
    requires j < |s| && s[j] == sep
    ensures LabelAt(s[j + 1..], sep, h, i') <==> LabelAt(s, sep, h, i' + j + 1)
  {
    var rest := s[j + 1..];
    var i := i' + j + 1;
    if i' + |h| <= |rest| {
      assert s[i..i + |h|] == rest[i'..i' + |h|];
      assert i' > 0 ==> s[i - 1] == rest[i' - 1];
      assert i + |h| < |s| ==> s[i + |h|] == rest[i' + |h|];
    }
  }

  /** Each piece occurs in `s`, delimited. */
  lemma {:induction false} PieceIsLabel(s: string, sep: char, h: string)
    requires h in Split(s, sep)
    ensures exists i :: LabelAt(s, sep, h, i)
    decreases |s|
  {
    var j := Find(s, sep);
    if j == |s| {
      assert h == s;
      assert LabelAt(s, sep, h, 0);
    } else {
      var rest := s[j + 1..];
      SplitUnfold(s, sep);
      if h == s[..j] {
        assert LabelAt(s, sep, h, 0);
      } else {
        assert h in Split(rest, sep);
        PieceIsLabel(rest, sep, h);
        var i' :| LabelAt(rest, sep, h, i');
        LabelAtShift(s, sep, h, j, i');
      }
    }
  }

  /** Without any separator in `s`, the only delimited occurrence is `s`. */
  lemma LabelWithoutSeparator(s: string, sep: char, h: string, i: nat)
    requires Find(s, sep) == |s| && LabelAt(s, sep, h, i)
    ensures h == s
  {
    assert i == 0;
    assert |h| == |s|;
    assert s[0..|s|] == s;
  }

  /** A delimited separator-free occurrence that starts no later than the
      first separator is the first piece. */
  lemma LabelAtStart(s: string, sep: char, h: string, i: nat)
    requires Find(s, sep) < |s| && sep !in h && LabelAt(s, sep, h, i) && i <= Find(s, sep)
    ensures h == s[..Find(s, sep)]
  {
    var j := Find(s, sep);
    assert i == 0;
    assert forall k :: 0 <= k < |h| ==> s[k] == h[k];
    assert |h| == j;
  }

  lemma FirstIsPiece(s: string, sep: char)
    requires Find(s, sep) < |s|
    ensures s[..Find(s, sep)] in Split(s, sep)
  {
    SplitUnfold(s, sep);
  }

  lemma RestPieceIsPiece(s: string, sep: char, h: string)
    requires Find(s, sep) < |s| && h in Split(s[Find(s, sep) + 1..], sep)
    ensures h in Split(s, sep)
  {
    SplitUnfold(s, sep);
  }

  lemma WholeIsPiece(s: string, sep: char)
    requires Find(s, sep) == |s|
    ensures Split(s, sep) == [s]
  {
  }

  /** Each delimited separator-free occurrence is a piece. */
  lemma {:induction false} LabelIsPiece(s: string, sep: char, h: string, i: nat)
    requires sep !in h && LabelAt(s, sep, h, i)
    ensures h in Split(s, sep)
    decreases |s|, 1
  {
    var j := Find(s, sep);
    if j == |s| {
      LabelWithoutSeparator(s, sep, h, i);
      WholeIsPiece(s, sep);
    } else if i <= j {
      LabelAtStart(s, sep, h, i);
      FirstIsPiece(s, sep);
    } else {
      LaterLabelIsPiece(s, sep, h, i);
    }
  }

  /** The case of an occurrence after the first separator. */
  lemma {:induction false} LaterLabelIsPiece(s: string, sep: char, h: string, i: nat)
    requires Find(s, sep) < i && sep !in h && LabelAt(s, sep, h, i)
    ensures h in Split(s, sep)
    decreases |s|, 0
  {
    var j := Find(s, sep);
    LabelAtShift(s, sep, h, j, i - j - 1);
    LabelIsPiece(s[j + 1..], sep, h, i - j - 1);
    RestPieceIsPiece(s, sep, h);
  }

  /** Membership in the split, stated without Split: `h` is one of the
      pieces exactly when `h` holds no separator and occurs in `s` delimited
      by separators or the ends of `s`.  Being a mere substring is not enough. */
  lemma InSplitIff(s: string, sep: char, h: string)
    ensures h in Split(s, sep) <==> sep !in h && exists i :: LabelAt(s, sep, h, i)
  {
    if h in Split(s, sep) {
      PieceIsLabel(s, sep, h);
      PiecesHaveNoSeparator(s, sep);
    }
    if sep !in h && exists i :: LabelAt(s, sep, h, i) {
      var i :| LabelAt(s, sep, h, i);
      LabelIsPiece(s, sep, h, i);
    }
  }

  /** A string that contains the separator is never one of the pieces. */
  lemma SeparatorNeverInPiece(s: string, sep: char, h: string)
    requires sep in h
    ensures h !in Split(s, sep)
  {
    PiecesHaveNoSeparator(s, sep);
  }

  /** A separator-free `h` is the first piece of `h + sep + t`. */
  lemma FirstPiece(h: string, sep: char, t: string)
    requires sep !in h
    ensures Split(h + [sep] + t, sep)[0] == h
  {
    SplitAfterFirst(h, sep, t);
  }
}
