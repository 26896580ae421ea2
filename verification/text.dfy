/** The Python string operations the input dialogs and the history rendering
    rely on: `str.strip()` with no argument, `str.split(sep)` with a
    one-character separator, and `sep.join(parts)`. */
module Text {

  /** The characters Python's `str.isspace()` accepts, which are the ones
      `str.strip()` removes. */
  predicate IsSpace(c: char) {
    || c == ' ' || c == '\t' || c == '\n' || c == '\r'
    || c == '\U{B}' || c == '\U{C}'
    || ('\U{1C}' <= c <= '\U{1F}')
    || c == '\U{85}' || c == '\U{A0}' || c == '\U{1680}'
    || ('\U{2000}' <= c <= '\U{200A}')
    || c == '\U{2028}' || c == '\U{2029}' || c == '\U{202F}' || c == '\U{205F}'
    || c == '\U{3000}'
  }

  /** `s.lstrip()`: the suffix of `s` left after removing leading whitespace. */
  function LStrip(s: string): (r: string)
    ensures |r| <= |s| && r == s[|s| - |r|..]
    ensures forall i :: 0 <= i < |s| - |r| ==> IsSpace(s[i])
    ensures r == [] || !IsSpace(r[0])
  {
    if |s| > 0 && IsSpace(s[0]) then LStrip(s[1..]) else s
  }

  /** `s.rstrip()`: the prefix of `s` left after removing trailing whitespace. */
  function RStrip(s: string): (r: string)
    ensures |r| <= |s| && r == s[..|r|]
    ensures forall i :: |r| <= i < |s| ==> IsSpace(s[i])
    ensures r == [] || !IsSpace(r[|r| - 1])
  {
    if |s| > 0 && IsSpace(s[|s| - 1]) then RStrip(s[..|s| - 1]) else s
  }

  /** `s[..i]` and `s[j..]` are whitespace only. */
  predicate OuterSpace(s: string, i: int, j: int) {
    && 0 <= i <= j <= |s|
    && (forall k :: 0 <= k < i ==> IsSpace(s[k]))
    && (forall k :: j <= k < |s| ==> IsSpace(s[k]))
  }

  /** `s.strip()`: `s` without its leading and trailing whitespace. The
      result is the infix of `s` between a whitespace prefix and a
      whitespace suffix, and it neither starts nor ends with whitespace. It
      is empty exactly when every character of `s` is whitespace, which is
      when Python treats `s.strip()` as false. */
  function Strip(s: string): (r: string)
    ensures exists i, j :: OuterSpace(s, i, j) && r == s[i..j]
    ensures r == [] <==> (forall i :: 0 <= i < |s| ==> IsSpace(s[i]))
    ensures r == [] || (!IsSpace(r[0]) && !IsSpace(r[|r| - 1]))
    ensures |r| <= |s|
  {
    var t := RStrip(s);
    assert forall i :: 0 <= i < |t| ==> t[i] == s[i];
    var r := LStrip(t);
    var i := |t| - |r|;
    assert r == s[i..|t|];
    r
  }

  /** A text without leading or trailing whitespace. */
  predicate Unpadded(s: string) {
    s == [] || (!IsSpace(s[0]) && !IsSpace(s[|s| - 1]))
  }

  /** Stripping a text without outer whitespace leaves it as it is. */
  lemma StripUnpadded(s: string)
    requires Unpadded(s)
    ensures Strip(s) == s
  {
    if s != [] {
      StripKeepsLeadingText(s);
    }
  }

  /** Whitespace at the end does not survive a right strip. */
  lemma {:induction false} RStripTrailingSpace(s: string, c: char)
    requires IsSpace(c)
    ensures RStrip(s + [c]) == RStrip(s)
  {
    assert (s + [c])[..|s|] == s;
  }

  /** Text that starts with a non-space character loses nothing on the left. */
  lemma StripKeepsLeadingText(s: string)
    requires |s| > 0 && !IsSpace(s[0])
    ensures Strip(s) == RStrip(s)
  {
    var t := RStrip(s);
    assert t[0] == s[0];
  }

  /** `s.split(sep)`: the pieces between the occurrences of `sep`. There is
      always one more piece than there are separators, and no piece contains
      the separator. */
  function Split(s: string, sep: char): (parts: seq<string>)
    ensures |parts| == multiset(s)[sep] + 1
    ensures forall i :: 0 <= i < |parts| ==> sep !in parts[i]
  {
    if |s| == 0 then [""]
    else
      var rest := Split(s[1..], sep);
      assert s == [s[0]] + s[1..];
      if s[0] == sep then [""] + rest
      else [[s[0]] + rest[0]] + rest[1..]
  }

  /** `sep.join(parts)`. */
  function Join(parts: seq<string>, sep: string): string {
    if |parts| == 0 then ""
    else if |parts| == 1 then parts[0]
    else parts[0] + sep + Join(parts[1..], sep)
  }

  lemma JoinExtendsFirst(a: string, parts: seq<string>, sep: string)
    requires |parts| > 0
    ensures Join([a + parts[0]] + parts[1..], sep) == a + Join(parts, sep)
  {
    var ps := [a + parts[0]] + parts[1..];
    assert ps[1..] == parts[1..];
  }

  /** Joining the pieces of a split with the same separator gives back the
      original text. */
  lemma {:induction false} JoinSplit(s: string, sep: char)
    ensures Join(Split(s, sep), [sep]) == s
  {
    if |s| > 0 {
      var rest := Split(s[1..], sep);
      JoinSplit(s[1..], sep);
      if s[0] == sep {
        var ps := [""] + rest;
        assert ps[1..] == rest;
        assert Join(ps, [sep]) == "" + [sep] + Join(rest, [sep]);
      } else {
        JoinExtendsFirst([s[0]], rest, [sep]);
      }
    }
  }

  /** A piece without the separator splits into itself alone. */
  lemma {:induction false} SplitWithoutSeparator(s: string, sep: char)
    requires sep !in s
    ensures Split(s, sep) == [s]
  {
    if |s| > 0 {
      assert sep !in s[1..] by {
        assert forall i :: 0 <= i < |s[1..]| ==> s[1..][i] == s[i + 1];
      }
      SplitWithoutSeparator(s[1..], sep);
      assert s[0] != sep;
      assert [s[0]] + s[1..] == s;
    }
  }

  /** Splitting a separator-free piece followed by the separator peels off
      that piece. */
  lemma {:induction false} SplitAfterPiece(p: string, sep: char, rest: string)
    requires sep !in p
    ensures Split(p + [sep] + rest, sep) == [p] + Split(rest, sep)
  {
    var s := p + [sep] + rest;
    if |p| == 0 {
      assert s == [sep] + rest;
      assert s[1..] == rest;
    } else {
      var t := Split(s[1..], sep);
      assert t == [p[1..]] + Split(rest, sep) by {
        assert s[1..] == p[1..] + [sep] + rest;
        assert sep !in p[1..] by {
          assert forall i :: 0 <= i < |p[1..]| ==> p[1..][i] == p[i + 1];
        }
        SplitAfterPiece(p[1..], sep, rest);
      }
      assert Split(s, sep) == [[p[0]] + t[0]] + t[1..] by {
        assert s[0] == p[0] && s[0] != sep;
      }
      assert [p[0]] + p[1..] == p;
    }
  }

  /** Splitting the join of separator-free pieces gives the pieces back. */
  lemma {:induction false} SplitJoin(parts: seq<string>, sep: char)
    requires |parts| > 0
    requires forall i :: 0 <= i < |parts| ==> sep !in parts[i]
    ensures Split(Join(parts, [sep]), sep) == parts
  {
    if |parts| == 1 {
      SplitWithoutSeparator(parts[0], sep);
    } else {
      SplitJoin(parts[1..], sep);
      SplitAfterPiece(parts[0], sep, Join(parts[1..], [sep]));
      assert [parts[0]] + parts[1..] == parts;
    }
  }

  /** The stripped comma-separated fields of an input line, as
      `[item.strip() for item in line.split(',')]` builds them. A line has
      exactly one more field than it has commas. */
  function Fields(line: string): (fields: seq<string>)
    ensures |fields| == multiset(line)[','] + 1
    ensures forall i :: 0 <= i < |fields| ==> ',' !in fields[i]
  {
    var parts := Split(line, ',');
    var fields := seq(|parts|, i requires 0 <= i < |parts| => Strip(parts[i]));
    assert forall i :: 0 <= i < |fields| ==> ',' !in fields[i] by {
      forall i | 0 <= i < |fields|
        ensures ',' !in fields[i]
      {
        StripIsInfix(parts[i]);
      }
    }
    fields
  }

  /** The fields of comma-separated comma-free pieces are the pieces with
      their outer whitespace removed, one field per piece: the line
      `1A, 1, Chan` has the fields `1A`, `1` and `Chan`. */
  lemma FieldsOfJoinedPieces(parts: seq<string>)
    requires |parts| > 0
    requires forall i :: 0 <= i < |parts| ==> ',' !in parts[i]
    ensures |Fields(Join(parts, ","))| == |parts|
    ensures forall i :: 0 <= i < |parts| ==> Fields(Join(parts, ","))[i] == Strip(parts[i])
  {
    SplitJoin(parts, ',');
  }

  /** Every character of a stripped text occurs in the original. */
  lemma StripIsInfix(s: string)
    ensures forall c :: c in Strip(s) ==> c in s
  {
    var t := RStrip(s);
    assert forall i :: 0 <= i < |t| ==> t[i] == s[i];
  }

}
