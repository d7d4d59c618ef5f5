/** strings.Split, strings.Join and strings.Contains, with a one-character separator. */
module Text {

  /** The parts of s between separators; there is always at least one. */
  function Split(s: string, sep: char): (r: seq<string>)
    ensures |r| >= 1
  {
    if s == [] then [""]
    else
      var r := Split(s[..|s| - 1], sep);
      var c := s[|s| - 1];
      if c == sep then r + [""] else r[..|r| - 1] + [r[|r| - 1] + [c]]
  }

  function Join(parts: seq<string>, sep: char): string {
    if parts == [] then ""
    else if |parts| == 1 then parts[0]
    else Join(parts[..|parts| - 1], sep) + [sep] + parts[|parts| - 1]
  }

  /** Appending a separator and a plain word appends the word to the parts. */
  lemma {:induction false} SplitAppend(prefix: string, sep: char, word: string)
    requires sep !in word
    ensures Split(prefix + [sep] + word, sep) == Split(prefix, sep) + [word]
  {
    var s := prefix + [sep] + word;
    if word == [] {
      assert s[..|s| - 1] == prefix;
    } else {
      var n := |word| - 1;
      assert word == word[..n] + [word[n]];
      assert word[n] in word;
      SplitAppend(prefix, sep, word[..n]);
      assert s[..|s| - 1] == prefix + [sep] + word[..n];
      var r := Split(prefix, sep) + [word[..n]];
      assert r[..|r| - 1] == Split(prefix, sep);
    }
  }

  /** A plain word is its own only part. */
  lemma {:induction false} SplitWord(word: string, sep: char)
    requires sep !in word
    ensures Split(word, sep) == [word]
  {
    if word != [] {
      var n := |word| - 1;
      assert word == word[..n] + [word[n]];
      assert word[n] in word;
      SplitWord(word[..n], sep);
    }
  }

  /** No part holds the separator. */
  ghost predicate Plain(parts: seq<string>, sep: char) {
    forall i :: 0 <= i < |parts| ==> sep !in parts[i]
  }

  /** Splitting undoes joining, as long as no part holds the separator. */
  lemma {:induction false} JoinSplit(parts: seq<string>, sep: char)
    requires parts != [] && Plain(parts, sep)
    ensures Split(Join(parts, sep), sep) == parts
  {
    var n := |parts| - 1;
    if n == 0 {
      SplitWord(parts[0], sep);
    } else {
      var init := parts[..n];
      assert parts == init + [parts[n]];
      JoinSplit(init, sep);
      assert Join(parts, sep) == Join(init, sep) + [sep] + parts[n];
      SplitAppend(Join(init, sep), sep, parts[n]);
    }
  }

  /** Joining undoes splitting, and the parts hold no separator. */
  lemma {:induction false} SplitJoin(s: string, sep: char)
    ensures Join(Split(s, sep), sep) == s && Plain(Split(s, sep), sep)
  {
    if s != [] {
      var n := |s| - 1;
      SplitJoin(s[..n], sep);
      var r := Split(s[..n], sep);
      assert s == s[..n] + [s[n]];
      if s[n] == sep {
        assert Split(s, sep) == r + [""] && (r + [""])[..|r|] == r;
        assert Join(r + [""], sep) == Join(r, sep) + [sep] + "";
      } else {
        JoinLonger(r, sep, s[n]);
        assert Split(s, sep) == r[..|r| - 1] + [r[|r| - 1] + [s[n]]];
      }
    }
  }

  lemma JoinLonger(r: seq<string>, sep: char, c: char)
    requires r != []
    ensures Join(r[..|r| - 1] + [r[|r| - 1] + [c]], sep) == Join(r, sep) + [c]
  {
    var n := |r| - 1;
    var longer := r[..n] + [r[n] + [c]];
    assert longer[..n] == r[..n] && longer[n] == r[n] + [c];
    if n > 0 {
      assert Join(longer, sep) == Join(r[..n], sep) + [sep] + (r[n] + [c]);
    }
  }

  /** A text has more than one part exactly when it holds the separator. */
  lemma PartsExactly(s: string, sep: char)
    ensures |Split(s, sep)| > 1 <==> sep in s
  {
    SplitJoin(s, sep);
    var r := Split(s, sep);
    if |r| > 1 {
      var n := |r| - 1;
      assert s == Join(r[..n], sep) + [sep] + r[n];
      assert s[|Join(r[..n], sep)|] == sep;
    }
  }

  /** t stands in s at position i. */
  predicate Occurs(s: string, t: string, i: nat) {
    i + |t| <= |s| && s[i..i + |t|] == t
  }

  predicate Contains(s: string, t: string) {
    exists i: nat :: i <= |s| && Occurs(s, t, i)
  }

  lemma ContainsItself(s: string)
    ensures Contains(s, s)
  {
    assert Occurs(s, s, 0);
  }

  lemma Covers(s: string, t: string, i: nat, j: nat)
    requires Occurs(s, t, i)
    ensures i <= j < i + |t| ==> s[j] in t
  {
    if i <= j < i + |t| {
      assert t[j - i] == s[j];
    }
  }

  /** A text without the separator stands on one side of it. */
  lemma ContainsAround(a: string, sep: char, b: string, t: string)
    requires sep !in t && t != []
    ensures Contains(a + [sep] + b, t) <==> Contains(a, t) || Contains(b, t)
  {
    var s := a + [sep] + b;
    if i: nat :| i <= |s| && Occurs(s, t, i) {
      OnOneSide(a, sep, b, t, i);
    }
    if i: nat :| i <= |a| && Occurs(a, t, i) {
      assert s[..|a|] == a;
      assert s[i..i + |t|] == s[..|a|][i..i + |t|];
      assert Occurs(s, t, i);
    }
    if j: nat :| j <= |b| && Occurs(b, t, j) {
      var i := |a| + 1 + j;
      assert s[|a| + 1..] == b;
      assert s[i..i + |t|] == s[|a| + 1..][j..j + |t|];
      assert Occurs(s, t, i);
    }
  }

  lemma OnOneSide(a: string, sep: char, b: string, t: string, i: nat)
    requires sep !in t && t != [] && Occurs(a + [sep] + b, t, i)
    ensures Contains(a, t) || Contains(b, t)
  {
    var s := a + [sep] + b;
    Covers(s, t, i, |a|);
    if i + |t| <= |a| {
      assert a[i..i + |t|] == s[i..i + |t|];
      assert Occurs(a, t, i);
    } else {
      var j := i - |a| - 1;
      assert b[j..j + |t|] == s[i..i + |t|];
      assert Occurs(b, t, j);
    }
  }

  /** A joined list contains a plain text exactly when one of its parts does. */
  lemma {:induction false} ContainsJoin(parts: seq<string>, sep: char, t: string)
    requires sep !in t && t != []
    ensures Contains(Join(parts, sep), t) <==> exists k :: 0 <= k < |parts| && Contains(parts[k], t)
  {
    var n := |parts| - 1;
    if n > 0 {
      ContainsJoin(parts[..n], sep, t);
      ContainsAround(Join(parts[..n], sep), sep, parts[n], t);
    }
  }

  /** Texts of the same length contain each other only if they are equal. */
  lemma SameLengthContains(s: string, t: string)
    requires |s| == |t|
    ensures Contains(s, t) <==> s == t
  {
    if i: nat :| i <= |s| && Occurs(s, t, i) {
      assert i == 0 && s[0..|s|] == s;
    }
    if s == t {
      ContainsItself(s);
    }
  }
}
