/** Text primitives the scrapers use from Python's `str`: ASCII lower-casing,
    substring search, prefix and suffix slices, and splitting and joining on a
    single separator character. */
module Strings {

  /** Lower-cases one ASCII letter; every other character is kept. */
  function LowerChar(c: char): (r: char)
  {
    if 'A' <= c <= 'Z' then (c as int + 32) as char else c
  }

  predicate IsUpper(c: char)
  {
    'A' <= c <= 'Z'
  }

  /** `s.lower()`, restricted to ASCII. */
  function Lower(s: string): (r: string)
    ensures |r| == |s|
    ensures forall i :: 0 <= i < |s| ==> r[i] == LowerChar(s[i])
  {
    seq(|s|, i requires 0 <= i < |s| => LowerChar(s[i]))
  }

  /** A string with no upper-case ASCII letter. */
  predicate IsLower(s: string)
  {
    forall i :: 0 <= i < |s| ==> !IsUpper(s[i])
  }

  /** Lower-casing leaves no capital behind and changes nothing else: a string
      is its own lower-casing exactly when it already has no capital. */
  lemma LowerIsLower(s: string)
    ensures IsLower(Lower(s))
    ensures Lower(s) == s <==> IsLower(s)
    ensures Lower(Lower(s)) == Lower(s)
  {
    if IsLower(s) {
      assert forall i :: 0 <= i < |s| ==> LowerChar(s[i]) == s[i];
    }
    if Lower(s) == s {
      assert forall i :: 0 <= i < |s| ==> !IsUpper(Lower(s)[i]);
    }
  }

  /** `p` is a prefix of `s`, i.e. `s.startswith(p)`. */
  predicate StartsWith(s: string, p: string)
  {
    |p| <= |s| && s[..|p|] == p
  }

  /** `sub` occurs in `s` starting at position `i`. */
  predicate OccursAt(s: string, sub: string, i: int)
  {
    0 <= i <= |s| - |sub| && s[i..i + |sub|] == sub
  }

  /** `sub in s` for strings: some slice of `s` equals `sub`. */
  predicate Contains(s: string, sub: string)
  {
    exists i | 0 <= i <= |s| - |sub| :: OccursAt(s, sub, i)
  }

  /** An occurrence at a known position witnesses containment. */
  lemma ContainsWitness(s: string, sub: string, i: int)
    requires OccursAt(s, sub, i)
    ensures Contains(s, sub)
  {
  }

  /** Every character of a contained string occurs in the containing one; so
      a single missing character refutes containment. */
  lemma NotContainsByChar(s: string, sub: string, k: nat)
    requires k < |sub| && sub[k] !in s
    ensures !Contains(s, sub)
  {
    forall i | 0 <= i <= |s| - |sub|
      ensures !OccursAt(s, sub, i)
    {
      assert s[i..i + |sub|][k] == s[i + k];
    }
  }

  /** A string drawn from an alphabet contains no string with a character
      outside that alphabet. */
  lemma NotContainsByAlphabet(s: string, alphabet: set<char>, sub: string, k: nat)
    requires forall i :: 0 <= i < |s| ==> s[i] in alphabet
    requires k < |sub| && sub[k] !in alphabet
    ensures !Contains(s, sub)
  {
    NotContainsByChar(s, sub, k);
  }

  /** A string at least as long as `s` occurs in `s` only if it is `s`. */
  lemma NotContainsUnlessEqual(s: string, sub: string)
    requires |sub| >= |s| && sub != s
    ensures !Contains(s, sub)
  {
    forall i | 0 <= i <= |s| - |sub|
      ensures !OccursAt(s, sub, i)
    {
      assert s[i..i + |sub|] == s;
    }
  }

  /** Python's slice `s[0:n]`, which stops early on a short string. */
  function Take(s: string, n: nat): (r: string)
    ensures |r| == if |s| < n then |s| else n
    ensures StartsWith(s, r)
  {
    if |s| <= n then s else s[..n]
  }

  /** Python's slice `s[-n:]`: the last `n` characters, or all of a short string. */
  function TakeLast(s: string, n: nat): (r: string)
    ensures |r| == if |s| < n then |s| else n
    ensures s == s[..|s| - |r|] + r
  {
    if |s| <= n then s else s[|s| - n..]
  }

  /** `s.split(sep)`: the pieces between separators, empty ones included; there
      is always one more piece than there are separators. */
  function Split(s: string, sep: char): (r: seq<string>)
    ensures |r| >= 1
    ensures forall k :: 0 <= k < |r| ==> sep !in r[k]
    decreases |s|
  {
    if |s| == 0 then [""]
    else
      var rest := Split(s[1..], sep);
      if s[0] == sep then [""] + rest
      else [[s[0]] + rest[0]] + rest[1..]
  }

  /** `sep.join(parts)`. */
  function Join(parts: seq<string>, sep: char): (s: string)
    ensures |parts| > 0 ==> StartsWith(s, parts[0])
  {
    if |parts| == 0 then ""
    else if |parts| == 1 then parts[0]
    else parts[0] + [sep] + Join(parts[1..], sep)
  }

  /** Splitting then joining on the same separator gives back the input. */
  lemma {:induction false} JoinSplit(s: string, sep: char)
    ensures Join(Split(s, sep), sep) == s
    decreases |s|
  {
    if |s| > 0 {
      JoinSplit(s[1..], sep);
      var rest := Split(s[1..], sep);
      if s[0] == sep {
        assert Join([""] + rest, sep) == "" + [sep] + Join(rest, sep);
      } else {
        var head := [s[0]] + rest[0];
        if |rest| == 1 {
          assert Split(s, sep) == [head];
        } else {
          assert Split(s, sep)[1..] == rest[1..];
          assert Join(rest, sep) == rest[0] + [sep] + Join(rest[1..], sep);
        }
      }
    }
  }

  /** Joining separator-free parts then splitting gives back the parts. */
  lemma {:induction false} SplitJoin(parts: seq<string>, sep: char)
    requires |parts| >= 1
    requires forall k :: 0 <= k < |parts| ==> sep !in parts[k]
    ensures Split(Join(parts, sep), sep) == parts
    decreases |parts|, |parts[0]|
  {
    if |parts| == 1 {
      SplitNoSep(parts[0], sep);
    } else if |parts[0]| == 0 {
      SplitJoin(parts[1..], sep);
      assert Join(parts, sep) == [sep] + Join(parts[1..], sep);
      assert Join(parts, sep)[1..] == Join(parts[1..], sep);
      assert parts == [""] + parts[1..];
    } else {
      var tail := [parts[0][1..]] + parts[1..];
      assert tail[1..] == parts[1..];
      SplitJoin(tail, sep);
      assert Join(tail, sep) == parts[0][1..] + [sep] + Join(parts[1..], sep);
      assert Join(parts, sep) == [parts[0][0]] + Join(tail, sep);
      assert Join(parts, sep)[1..] == Join(tail, sep);
      assert parts[0] == [parts[0][0]] + parts[0][1..];
    }
  }

  /** A string without the separator splits into itself alone. */
  lemma {:induction false} SplitNoSep(s: string, sep: char)
    requires sep !in s
    ensures Split(s, sep) == [s]
    decreases |s|
  {
    if |s| > 0 {
      assert sep !in s[1..];
      SplitNoSep(s[1..], sep);
      assert s == [s[0]] + s[1..];
    }
  }

  /** Keeps the non-empty strings, in order (`[x for x in xs if x]`). */
  function NonEmpty(xs: seq<string>): (r: seq<string>)
    ensures |r| <= |xs|
    ensures forall k :: 0 <= k < |r| ==> |r[k]| > 0
    ensures forall x :: x in r <==> x in xs && |x| > 0
  {
    if |xs| == 0 then []
    else if |xs[0]| == 0 then NonEmpty(xs[1..])
    else [xs[0]] + NonEmpty(xs[1..])
  }

  /** The whitespace tokens of a vote line: `s.split(" ")` without the empty
      pieces. Every token is non-empty and contains no space. */
  function Tokens(s: string): (r: seq<string>)
    ensures forall k :: 0 <= k < |r| ==> |r[k]| > 0 && ' ' !in r[k]
  {
    NonEmpty(Split(s, ' '))
  }

  /** Filtering out empty strings changes nothing when there are none. */
  lemma {:induction false} NonEmptyKeepsAll(xs: seq<string>)
    requires forall k :: 0 <= k < |xs| ==> |xs[k]| > 0
    ensures NonEmpty(xs) == xs
  {
    if |xs| > 0 {
      NonEmptyKeepsAll(xs[1..]);
    }
  }

  /** Tokenising a line written as space-separated words gives back the words. */
  lemma TokensJoin(words: seq<string>)
    requires forall k :: 0 <= k < |words| ==> |words[k]| > 0 && ' ' !in words[k]
    ensures Tokens(Join(words, ' ')) == words
  {
    if |words| == 0 {
      assert Split("", ' ') == [""];
    } else {
      SplitJoin(words, ' ');
      NonEmptyKeepsAll(words);
    }
  }

  /** Splitting at one separator splits the pieces: those of the text
      before it followed by those of the text after it. */
  lemma {:induction false} SplitAppend(a: string, b: string, sep: char)
    ensures Split(a + [sep] + b, sep) == Split(a, sep) + Split(b, sep)
    decreases |a|
  {
    var s := a + [sep] + b;
    if |a| == 0 {
      assert s[1..] == b;
    } else {
      assert s[1..] == a[1..] + [sep] + b;
      SplitAppend(a[1..], b, sep);
    }
  }

  /** Dropping empty strings distributes over concatenation. */
  lemma {:induction false} NonEmptyAppend(xs: seq<string>, ys: seq<string>)
    ensures NonEmpty(xs + ys) == NonEmpty(xs) + NonEmpty(ys)
    decreases |xs|
  {
    if |xs| == 0 {
      assert xs + ys == ys;
    } else {
      assert (xs + ys)[1..] == xs[1..] + ys;
      NonEmptyAppend(xs[1..], ys);
    }
  }

  /** A space separates tokens: those before it, then those after it. With
      `TokensWord` this fixes the tokens of every line, however many spaces
      lead, trail or separate its words. */
  lemma TokensAppend(a: string, b: string)
    ensures Tokens(a + " " + b) == Tokens(a) + Tokens(b)
  {
    SplitAppend(a, b, ' ');
    NonEmptyAppend(Split(a, ' '), Split(b, ' '));
  }

  /** A non-empty word without spaces is one token, and the empty line none. */
  lemma TokensWord(w: string)
    requires ' ' !in w
    ensures Tokens(w) == if |w| == 0 then [] else [w]
  {
    SplitNoSep(w, ' ');
  }

  /** Spaces in front, spaces behind and a doubled space between words add
      no token: what the `if x` filter of the vote-line reader is for. */
  lemma TokensExtraSpaces(a: string, b: string)
    ensures Tokens(" " + a) == Tokens(a)
    ensures Tokens(a + " ") == Tokens(a)
    ensures Tokens(a + "  " + b) == Tokens(a + " " + b)
  {
    TokensLeadingSpace(a);
    TokensTrailingSpace(a);
    TokensLeadingSpace(b);
    DoubleSpace(a, b);
    TokensAppend(a, " " + b);
    TokensAppend(a, b);
  }

  lemma TokensLeadingSpace(a: string)
    ensures Tokens(" " + a) == Tokens(a)
  {
    var e: string := [];
    TokensWord(e);
    assert e + " " + a == " " + a;
    TokensAppend(e, a);
  }

  lemma TokensTrailingSpace(a: string)
    ensures Tokens(a + " ") == Tokens(a)
  {
    var e: string := [];
    TokensWord(e);
    assert a + " " + e == a + " ";
    TokensAppend(a, e);
  }

  lemma DoubleSpace(a: string, b: string)
    ensures a + "  " + b == a + " " + (" " + b)
  {
    assert "  " == " " + " ";
  }

  /** A line made of spaces only (the empty line included). */
  predicate Blank(s: string)
  {
    forall i :: 0 <= i < |s| ==> s[i] == ' '
  }

  /** Joining empty parts leaves only separators. */
  lemma {:induction false} JoinOfEmpties(parts: seq<string>, sep: char)
    requires forall k :: 0 <= k < |parts| ==> parts[k] == ""
    ensures forall i :: 0 <= i < |Join(parts, sep)| ==> Join(parts, sep)[i] == sep
  {
    if |parts| > 1 {
      JoinOfEmpties(parts[1..], sep);
      assert Join(parts, sep) == [sep] + Join(parts[1..], sep);
    }
  }

  /** Every character of a part survives the join. */
  lemma {:induction false} JoinKeepsChars(parts: seq<string>, sep: char, k: nat, j: nat)
    requires k < |parts| && j < |parts[k]|
    ensures parts[k][j] in Join(parts, sep)
  {
    if k > 0 {
      JoinKeepsChars(parts[1..], sep, k - 1, j);
      assert Join(parts, sep) == parts[0] + [sep] + Join(parts[1..], sep);
    } else if |parts| > 1 {
      assert Join(parts, sep) == parts[0] + [sep] + Join(parts[1..], sep);
      assert Join(parts, sep)[j] == parts[0][j];
    }
  }

  /** A line yields no token exactly when it holds nothing but spaces. */
  lemma TokensEmptyIffBlank(s: string)
    ensures |Tokens(s)| == 0 <==> Blank(s)
  {
    var parts := Split(s, ' ');
    JoinSplit(s, ' ');
    if |Tokens(s)| == 0 {
      forall k | 0 <= k < |parts|
        ensures parts[k] == ""
      {
        assert parts[k] in parts;
      }
      JoinOfEmpties(parts, ' ');
    } else {
      var t := Tokens(s)[0];
      assert t in Tokens(s);
      var k :| 0 <= k < |parts| && parts[k] == t;
      JoinKeepsChars(parts, ' ', k, 0);
      assert t[0] != ' ';
      var i :| 0 <= i < |s| && s[i] == t[0];
    }
  }
}
