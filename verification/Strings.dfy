/** The parts of Python's str that the scripts use: find, split, join, strip and replace. */
module Strings {
  import opened Options
  import opened Sequences

  /** str.isspace for one character. */
  predicate IsSpace(c: char) {
    || '\t' <= c <= '\r' || '\U{1c}' <= c <= ' ' || c == '\U{85}' || c == '\U{a0}' || c == '\U{1680}'
    || '\U{2000}' <= c <= '\U{200a}' || c == '\U{2028}' || c == '\U{2029}' || c == '\U{202f}' || c == '\U{205f}'
    || c == '\U{3000}'
  }

  /** The 29 characters that Python counts as white space. */
  lemma WhiteSpace(c: char)
    ensures IsSpace(c) <==>
            c in ['\t', '\n', '\U{b}', '\U{c}', '\r', '\U{1c}', '\U{1d}', '\U{1e}', '\U{1f}', ' ', '\U{85}', '\U{a0}',
                  '\U{1680}', '\U{2000}', '\U{2001}', '\U{2002}', '\U{2003}', '\U{2004}', '\U{2005}', '\U{2006}',
                  '\U{2007}', '\U{2008}', '\U{2009}', '\U{200a}', '\U{2028}', '\U{2029}', '\U{202f}', '\U{205f}',
                  '\U{3000}']
  {
  }

  // ---------- strip ----------

  function LStrip(s: string): (r: string)
    ensures r == "" || !IsSpace(r[0])
    ensures s == "" || IsSpace(s[0]) || r == s
  {
    if s != "" && IsSpace(s[0]) then LStrip(s[1..]) else s
  }

  function RStrip(s: string): (r: string)
    ensures r <= s && (r == "" || !IsSpace(r[|r| - 1]))
    ensures s == "" || IsSpace(s[|s| - 1]) || r == s
  {
    if s != "" && IsSpace(s[|s| - 1]) then RStrip(s[..|s| - 1]) else s
  }

  function RStripChar(s: string, c: char): (r: string)
    ensures r <= s && (r == "" || r[|r| - 1] != c)
    ensures s == "" || s[|s| - 1] == c || r == s
  {
    if s != "" && s[|s| - 1] == c then RStripChar(s[..|s| - 1], c) else s
  }

  function Strip(s: string): string {
    LStrip(RStrip(s))
  }

  predicate Blank(s: string) {
    forall i :: 0 <= i < |s| ==> IsSpace(s[i])
  }

  /** No white space at either end. */
  predicate Trimmed(s: string) {
    s == "" || (!IsSpace(s[0]) && !IsSpace(s[|s| - 1]))
  }

  lemma {:induction false} LStripLeading(blank: string, s: string)
    requires Blank(blank)
    ensures LStrip(blank + s) == LStrip(s)
  {
    if blank == "" {
      assert blank + s == s;
    } else {
      ConcatTail(blank, s);
      LStripLeading(blank[1..], s);
    }
  }

  lemma {:induction false} RStripTrailing(s: string, blank: string)
    requires Blank(blank)
    ensures RStrip(s + blank) == RStrip(s)
  {
    if blank == "" {
      assert s + blank == s;
    } else {
      var front := blank[..|blank| - 1];
      assert (s + blank)[..|s + blank| - 1] == s + front;
      RStripTrailing(s, front);
    }
  }

  /** Strip removes exactly the white space around a trimmed text. */
  lemma StripAround(before: string, s: string, after: string)
    requires Blank(before) && Blank(after) && Trimmed(s)
    ensures Strip(before + s + after) == s
  {
    RStripTrailing(before + s, after);
    if s == "" {
      assert before + s == before && "" + before == before;
      RStripTrailing("", before);
    } else {
      LStripLeading(before, s);
    }
  }

  lemma {:induction false} RStripAfterLStrip(s: string)
    ensures LStrip(RStrip(s)) == RStrip(LStrip(s))
  {
    if s != "" && IsSpace(s[0]) {
      RStripAfterLStrip(s[1..]);
      RStripTail(s);
    }
  }

  lemma {:induction false} RStripTail(s: string)
    requires s != "" && IsSpace(s[0])
    ensures LStrip(RStrip(s)) == LStrip(RStrip(s[1..]))
  {
    if IsSpace(s[|s| - 1]) {
      if |s| > 1 {
        assert s[1..][..|s| - 2] == s[..|s| - 1][1..];
        RStripTail(s[..|s| - 1]);
      }
    } else {
      assert RStrip(s) == s && RStrip(s[1..]) == s[1..];
    }
  }

  lemma StripIsTrimmed(s: string)
    ensures Trimmed(Strip(s))
  {
    RStripAfterLStrip(s);
  }

  // ---------- find ----------

  predicate OccursAt(s: string, pattern: string, i: nat) {
    i + |pattern| <= |s| && s[i..i + |pattern|] == pattern
  }

  predicate Occurs(s: string, pattern: string) {
    exists i :: 0 <= i <= |s| && OccursAt(s, pattern, i)
  }

  function Find(s: string, pattern: string): (found: Option<nat>)
    ensures found.Some? ==> OccursAt(s, pattern, found.value)
                            && forall k :: 0 <= k < found.value ==> !OccursAt(s, pattern, k)
    ensures found.None? ==> !Occurs(s, pattern)
    decreases |s|
  {
    if OccursAt(s, pattern, 0) then Some(0)
    else if s == "" then None
    else
      assert forall k :: 0 < k <= |s| ==> (OccursAt(s, pattern, k) <==> OccursAt(s[1..], pattern, k - 1)) by {
        forall k | 0 < k <= |s| ensures OccursAt(s, pattern, k) <==> OccursAt(s[1..], pattern, k - 1) {
          OccursInTail(s, pattern, k);
        }
      }
      match Find(s[1..], pattern)
      case Some(i) => Some(i + 1)
      case None => None
  }

  lemma OccursInTail(s: string, pattern: string, k: nat)
    requires 0 < k <= |s|
    ensures OccursAt(s, pattern, k) <==> OccursAt(s[1..], pattern, k - 1)
  {
    if k + |pattern| <= |s| {
      assert s[k..k + |pattern|] == s[1..][k - 1..k - 1 + |pattern|];
    }
  }

  lemma FindIs(s: string, pattern: string, i: nat)
    requires OccursAt(s, pattern, i) && forall k :: 0 <= k < i ==> !OccursAt(s, pattern, k)
    ensures Find(s, pattern) == Some(i)
  {
    assert Occurs(s, pattern);
  }

  // ---------- split and join ----------

  function Split(s: string, separator: string): (parts: seq<string>)
    requires separator != ""
    ensures |parts| >= 1
    ensures |parts| == 1 <==> !Occurs(s, separator)
    decreases |s|
  {
    match Find(s, separator)
    case None => [s]
    case Some(i) =>
      assert Occurs(s, separator);
      [s[..i]] + Split(s[i + |separator|..], separator)
  }

  function Join(parts: seq<string>, separator: string): string {
    if parts == [] then ""
    else if |parts| == 1 then parts[0]
    else parts[0] + separator + Join(parts[1..], separator)
  }

  lemma CutAt(s: string, i: nat, j: nat)
    requires i <= j <= |s|
    ensures s == s[..i] + s[i..j] + s[j..]
  {
  }

  lemma JoinCons(head: string, parts: seq<string>, separator: string)
    requires parts != []
    ensures Join([head] + parts, separator) == head + separator + Join(parts, separator)
  {
    ConcatTail([head], parts);
  }

  lemma {:induction false} JoinOfSplit(s: string, separator: string)
    requires separator != ""
    ensures Join(Split(s, separator), separator) == s
    decreases |s|
  {
    var found := Find(s, separator);
    if found.Some? {
      var i, j := found.value, found.value + |separator|;
      JoinOfSplit(s[j..], separator);
      JoinCons(s[..i], Split(s[j..], separator), separator);
      CutAt(s, i, j);
    }
  }

  /** One character has no occurrence exactly when it is not an element. */
  lemma CharOccurs(s: string, c: char)
    ensures Occurs(s, [c]) <==> c in s
  {
    if c in s {
      var i :| 0 <= i < |s| && s[i] == c;
      assert OccursAt(s, [c], i);
    }
    if i :| 0 <= i <= |s| && OccursAt(s, [c], i) {
      assert s[i..i + 1][0] == c;
    }
  }

  /** How a text splits whose first part is known not to hold the character. */
  lemma SplitFirst(a: string, b: string, c: char)
    requires c !in a
    ensures Split(a + [c] + b, [c]) == [a] + Split(b, [c])
  {
    var s := a + [c] + b;
    assert s[|a|..|a| + 1] == [c];
    forall k | 0 <= k < |a| ensures !OccursAt(s, [c], k) {
      assert s[k] == a[k];
    }
    FindIs(s, [c], |a|);
    assert s[..|a|] == a && s[|a| + 1..] == b;
  }

  lemma SplitNone(s: string, c: char)
    requires c !in s
    ensures Split(s, [c]) == [s]
  {
    CharOccurs(s, c);
  }

  /** Splitting at white space: the maximal runs of other characters. */
  function Words(s: string): seq<string>
    decreases |s|
  {
    var t := LStrip(s);
    LStripShorter(s);
    if t == "" then []
    else
      var n := WordLength(t);
      [t[..n]] + Words(t[n..])
  }

  lemma {:induction false} LStripShorter(s: string)
    ensures |LStrip(s)| <= |s|
  {
    if s != "" && IsSpace(s[0]) { LStripShorter(s[1..]); }
  }

  function WordLength(s: string): (n: nat)
    ensures n <= |s| && (s != "" && !IsSpace(s[0]) ==> n > 0)
  {
    if s == "" || IsSpace(s[0]) then 0 else 1 + WordLength(s[1..])
  }

  predicate IsWord(s: string) {
    s != "" && forall i :: 0 <= i < |s| ==> !IsSpace(s[i])
  }

  lemma {:induction false} WordLengthOf(word: string, rest: string)
    requires forall i :: 0 <= i < |word| ==> !IsSpace(word[i])
    requires rest == "" || IsSpace(rest[0])
    ensures WordLength(word + rest) == |word|
  {
    if word == "" {
      assert word + rest == rest;
    } else {
      ConcatTail(word, rest);
      WordLengthOf(word[1..], rest);
    }
  }

  lemma WordsCons(word: string, rest: string)
    requires IsWord(word) && (rest == "" || IsSpace(rest[0]))
    ensures Words(word + rest) == [word] + Words(rest)
  {
    WordLengthOf(word, rest);
    assert LStrip(word + rest) == word + rest;
    assert (word + rest)[..|word|] == word && (word + rest)[|word|..] == rest;
  }

  lemma WordsAfterBlank(s: string)
    ensures Words(" " + s) == Words(s)
  {
    LStripLeading(" ", s);
  }

  lemma WordsOfThree(a: string, b: string, c: string)
    requires IsWord(a) && IsWord(b) && IsWord(c)
    ensures Words(a + (" " + (b + (" " + c)))) == [a, b, c]
  {
    WordsCons(a, " " + (b + (" " + c)));
    WordsAfterBlank(b + (" " + c));
    WordsCons(b, " " + c);
    WordsAfterBlank(c);
    WordsCons(c, "");
    assert c + "" == c && Words("") == [];
  }

  /** The words of a text: it is blank before, between and behind them. */
  ghost predicate AreWords(s: string, words: seq<string>)
    decreases |words|
  {
    if words == [] then Blank(s)
    else exists blank, rest :: StartsWithWord(s, blank, words[0], rest) && AreWords(rest, words[1..])
  }

  ghost predicate StartsWithWord(s: string, blank: string, word: string, rest: string) {
    s == blank + word + rest && Blank(blank) && IsWord(word) && (rest == "" || IsSpace(rest[0]))
  }

  lemma {:induction false} LStripCut(s: string) returns (blank: string)
    ensures s == blank + LStrip(s) && Blank(blank)
  {
    if s != "" && IsSpace(s[0]) {
      var more := LStripCut(s[1..]);
      blank := [s[0]] + more;
      HeadTail(s);
      AppendAssociates([s[0]], more, LStrip(s));
    } else {
      blank := "";
    }
  }

  lemma {:induction false} WordLengthIs(s: string)
    ensures var n := WordLength(s);
            (forall i :: 0 <= i < n ==> !IsSpace(s[i])) && (n == |s| || IsSpace(s[n]))
  {
    if s != "" && !IsSpace(s[0]) {
      WordLengthIs(s[1..]);
      assert forall i :: 1 <= i < |s| ==> s[i] == s[1..][i - 1];
    }
  }

  lemma {:induction false} LStripOfBlank(s: string)
    ensures Blank(s) <==> LStrip(s) == ""
  {
    var blank := LStripCut(s);
    assert LStrip(s) != "" ==> s[|blank|] == LStrip(s)[0];
  }

  /** str.split() finds the words. */
  lemma {:induction false} WordsAreFound(s: string)
    ensures AreWords(s, Words(s))
    decreases |s|
  {
    LStripOfBlank(s);
    if LStrip(s) != "" {
      var blank, word, rest := FirstWord(s);
      WordsAreFound(rest);
      assert Words(s)[0] == word && Words(s)[1..] == Words(rest);
    }
  }

  lemma FirstWord(s: string) returns (blank: string, word: string, rest: string)
    requires LStrip(s) != ""
    ensures StartsWithWord(s, blank, word, rest) && Words(s) == [word] + Words(rest) && |rest| < |s|
  {
    blank := LStripCut(s);
    word, rest := CutWord(LStrip(s));
    LStripShorter(s);
    AppendAssociates(blank, word, rest);
    WordsStep(s, word, rest);
  }

  lemma CutWord(t: string) returns (word: string, rest: string)
    requires t != "" && !IsSpace(t[0])
    ensures t == word + rest && IsWord(word) && (rest == "" || IsSpace(rest[0]))
    ensures word == t[..WordLength(t)] && rest == t[WordLength(t)..]
  {
    WordLengthIs(t);
    word, rest := t[..WordLength(t)], t[WordLength(t)..];
  }

  lemma WordsStep(s: string, word: string, rest: string)
    requires LStrip(s) != ""
    requires var t := LStrip(s); word == t[..WordLength(t)] && rest == t[WordLength(t)..]
    ensures Words(s) == [word] + Words(rest)
  {
  }

  /** There is only one way to cut a text into words. */
  lemma {:induction false} WordsAreUnique(s: string, words: seq<string>)
    requires AreWords(s, words)
    ensures Words(s) == words
    decreases |words|
  {
    LStripOfBlank(s);
    if words != [] {
      var blank, rest :| StartsWithWord(s, blank, words[0], rest) && AreWords(rest, words[1..]);
      WordsAreUnique(rest, words[1..]);
      AppendAssociates(blank, words[0], rest);
      LStripLeading(blank, words[0] + rest);
      WordsCons(words[0], rest);
      HeadTail(words);
    }
  }

  // ---------- replace ----------

  /** str.replace(pattern, ""). */
  function Remove(s: string, pattern: string): string
    requires pattern != ""
    decreases |s|
  {
    match Find(s, pattern)
    case None => s
    case Some(i) => s[..i] + Remove(s[i + |pattern|..], pattern)
  }

  /** Removing a pattern leaves what stands between its occurrences. */
  lemma {:induction false} RemoveJoinsParts(s: string, pattern: string)
    requires pattern != ""
    ensures Remove(s, pattern) == Concatenated(Split(s, pattern))
    decreases |s|
  {
    if Find(s, pattern).None? {
      assert Concatenated([s]) == s by { assert [s][1..] == [] && s + "" == s; }
    } else {
      var first, rest := CutAtPattern(s, pattern);
      RemoveJoinsParts(rest, pattern);
      ConcatenatedCons(first, Split(rest, pattern));
    }
  }

  lemma CutAtPattern(s: string, pattern: string) returns (first: string, rest: string)
    requires pattern != "" && Find(s, pattern).Some?
    ensures Split(s, pattern) == [first] + Split(rest, pattern)
    ensures Remove(s, pattern) == first + Remove(rest, pattern)
    ensures |rest| < |s|
  {
    first, rest := s[..Find(s, pattern).value], s[Find(s, pattern).value + |pattern|..];
  }
}
