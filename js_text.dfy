/** The JavaScript string built-ins the authorizer relies on:
    `toLowerCase`, `startsWith`, `split` on a one-character separator and
    `Array.prototype.join`. */
module JsText {

  predicate IsUpperAscii(c: char) {
    'A' <= c <= 'Z'
  }

  /** Lower-cases one character (ASCII letters only): an upper-case letter
      becomes the lower-case letter at the same place in the alphabet, and
      every other character is left alone. */
  function LowerChar(c: char): (r: char)
    ensures !IsUpperAscii(r)
    ensures IsUpperAscii(c) ==> 'a' <= r <= 'z' && r as int - 'a' as int == c as int - 'A' as int
    ensures !IsUpperAscii(c) ==> r == c
  {
    if IsUpperAscii(c) then (c as int + 32) as char else c
  }

  /** `s.toLowerCase()`, restricted to ASCII letters: each character is
      lower-cased in place, so nothing upper-case is left. */
  function Lower(s: string): (r: string)
    ensures |r| == |s|
    ensures forall i :: 0 <= i < |s| ==> r[i] == LowerChar(s[i])
    ensures forall i :: 0 <= i < |r| ==> !IsUpperAscii(r[i])
  {
    seq(|s|, i requires 0 <= i < |s| => LowerChar(s[i]))
  }

  /** Lower-casing maps a space, and only a space, to a space. */
  lemma LowerCharSpace(c: char)
    ensures LowerChar(c) == ' ' <==> c == ' '
  {
  }

  /** `s.startsWith(p)`: `s` agrees with `p` on every position of `p`. */
  predicate StartsWith(s: string, p: string)
    ensures StartsWith(s, p) <==> |p| <= |s| && forall i :: 0 <= i < |p| ==> s[i] == p[i]
  {
    |p| <= |s| && s[..|p|] == p
  }

  /** A lower-cased text starts with a lower-case pattern exactly when each
      character of the text, at the pattern's positions, is the pattern's
      character or, for a letter, its upper-case form. */
  lemma StartsWithLowerIsCaseInsensitive(s: string, p: string)
    requires forall i :: 0 <= i < |p| ==> !IsUpperAscii(p[i])
    ensures StartsWith(Lower(s), p) <==>
      |p| <= |s| && forall i :: 0 <= i < |p| ==>
        s[i] == p[i] || ('a' <= p[i] <= 'z' && s[i] as int == p[i] as int - 32)
  {
    if |p| <= |s| {
      forall i | 0 <= i < |p|
        ensures LowerChar(s[i]) == p[i] <==>
          s[i] == p[i] || ('a' <= p[i] <= 'z' && s[i] as int == p[i] as int - 32)
      {
      }
    }
  }

  /** `s.split(sep)` for a one-character separator: the maximal runs of
      characters between separators, with an empty field before a leading,
      after a trailing and between two adjacent separators. */
  function Split(s: string, sep: char): (r: seq<string>)
    ensures |r| >= 1
    decreases |s|
  {
    if |s| == 0 then [""]
    else
      var rest := Split(s[1..], sep);
      if s[0] == sep then [""] + rest
      else [[s[0]] + rest[0]] + rest[1..]
  }

  /** `parts.join('')`. */
  function Concat(parts: seq<string>): string {
    if |parts| == 0 then "" else parts[0] + Concat(parts[1..])
  }

  /** `parts.join(sep)` for a one-character separator: the parts in order,
      one separator between each two. */
  function Join(parts: seq<string>, sep: char): (r: string)
    ensures |parts| > 0 ==> parts[0] <= r
    ensures |parts| > 0 ==> |r| == |Concat(parts)| + |parts| - 1
  {
    if |parts| == 0 then ""
    else if |parts| == 1 then parts[0]
    else parts[0] + [sep] + Join(parts[1..], sep)
  }

  /** No field of a split contains the separator. */
  lemma {:induction false} SplitFieldsHaveNoSeparator(s: string, sep: char)
    ensures forall j :: 0 <= j < |Split(s, sep)| ==> sep !in Split(s, sep)[j]
    decreases |s|
  {
    if |s| > 0 {
      SplitFieldsHaveNoSeparator(s[1..], sep);
    }
  }

  /** Joining a part in front of at least one more puts one separator between them. */
  lemma JoinCons(p: string, rest: seq<string>, sep: char)
    requires |rest| >= 1
    ensures Join([p] + rest, sep) == p + [sep] + Join(rest, sep)
  {
    assert ([p] + rest)[1..] == rest;
  }

  /** Joining the fields of a split with the same separator gives back the text. */
  lemma {:induction false} JoinSplit(s: string, sep: char)
    ensures Join(Split(s, sep), sep) == s
    decreases |s|
  {
    if |s| > 0 {
      var rest := Split(s[1..], sep);
      JoinSplit(s[1..], sep);
      assert [s[0]] + s[1..] == s;
      if s[0] == sep {
        assert Split(s, sep) == [""] + rest;
        JoinCons("", rest, sep);
      } else if |rest| == 1 {
        assert Split(s, sep) == [[s[0]] + rest[0]];
      } else {
        assert Split(s, sep) == [[s[0]] + rest[0]] + rest[1..];
        JoinCons([s[0]] + rest[0], rest[1..], sep);
        assert [rest[0]] + rest[1..] == rest;
        JoinCons(rest[0], rest[1..], sep);
      }
    }
  }

  /** Text without the separator is a single field. */
  lemma {:induction false} SplitWithoutSeparator(s: string, sep: char)
    requires sep !in s
    ensures Split(s, sep) == [s]
    decreases |s|
  {
    if |s| > 0 {
      assert sep !in s[1..] by {
        forall j | 0 <= j < |s[1..]| ensures s[1..][j] != sep {
          assert s[1..][j] == s[j + 1];
        }
      }
      SplitWithoutSeparator(s[1..], sep);
      assert [s[0]] + s[1..] == s;
    }
  }

  /** The first separator in the text ends the first field; the remaining
      fields are those of the text after it. */
  lemma {:induction false} SplitAtFirstSeparator(s: string, sep: char, i: nat)
    requires i < |s| && s[i] == sep && sep !in s[..i]
    ensures Split(s, sep) == [s[..i]] + Split(s[i + 1..], sep)
    decreases i
  {
    if i > 0 {
      var t := s[1..][..i - 1];
      assert t == s[1..i];
      assert sep !in t by {
        forall j | 0 <= j < |t| ensures t[j] != sep {
          assert t[j] == s[..i][j + 1];
        }
      }
      SplitAtFirstSeparator(s[1..], sep, i - 1);
      assert s[1..][i..] == s[i + 1..];
      assert [s[0]] + s[1..i] == s[..i];
    }
  }

  /** The first field is the longest prefix free of the separator. */
  lemma {:induction false} FirstField(s: string, sep: char)
    ensures var f := Split(s, sep)[0];
      f <= s && sep !in f && (|f| == |s| || s[|f|] == sep)
    decreases |s|
  {
    if |s| > 0 {
      FirstField(s[1..], sep);
      SplitFieldsHaveNoSeparator(s, sep);
      var rest := Split(s[1..], sep);
      if s[0] != sep {
        assert Split(s, sep)[0] == [s[0]] + rest[0];
      }
    }
  }

  /** Splitting text joined from separator-free fields gives back the fields. */
  lemma {:induction false} SplitJoin(parts: seq<string>, sep: char)
    requires |parts| >= 1
    requires forall j :: 0 <= j < |parts| ==> sep !in parts[j]
    ensures Split(Join(parts, sep), sep) == parts
    decreases |parts|
  {
    if |parts| == 1 {
      SplitWithoutSeparator(parts[0], sep);
    } else {
      var s := Join(parts, sep);
      var i := |parts[0]|;
      assert s == parts[0] + [sep] + Join(parts[1..], sep);
      assert s[..i] == parts[0];
      assert s[i + 1..] == Join(parts[1..], sep);
      SplitAtFirstSeparator(s, sep, i);
      SplitJoin(parts[1..], sep);
      assert [parts[0]] + parts[1..] == parts;
    }
  }
}
