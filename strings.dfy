/** The Python 2 byte-string built-ins the corpus reader and GetText rely on:
    str.lower(), str.split() (on runs of whitespace), str.split(sep) (on one
    separator character) and sep.join(words). Character classes are those of
    the C locale: whitespace is ' ' and '\t' .. '\r', upper case is 'A' .. 'Z'. */
module Strings {

  const Tab: char := '\t'

  predicate IsSpace(c: char) {
    c == ' ' || ('\t' <= c <= '\r')
  }

  predicate IsUpper(c: char) {
    'A' <= c <= 'Z'
  }

  predicate NoUpper(s: string) {
    forall i :: 0 <= i < |s| ==> !IsUpper(s[i])
  }

  /** A non-empty token free of whitespace: what str.split() produces. */
  predicate IsWord(w: string) {
    |w| > 0 && forall i :: 0 <= i < |w| ==> !IsSpace(w[i])
  }

  // ---------------------------------------------------------------------------
  // str.lower()

  function LowerChar(c: char): (d: char)
    ensures !IsUpper(d)
    ensures IsSpace(d) == IsSpace(c)
    ensures !IsUpper(c) ==> d == c
    ensures IsUpper(c) ==> d as int == c as int - 'A' as int + 'a' as int
  {
    if IsUpper(c) then (c as int - 'A' as int + 'a' as int) as char else c
  }

  /** str.lower(): same length, each character lowered on its own, so no
      upper-case letter is left and whitespace stays where it was. */
  function Lower(s: string): (r: string)
    ensures |r| == |s|
    ensures forall i :: 0 <= i < |s| ==> r[i] == LowerChar(s[i])
    ensures NoUpper(r)
    ensures forall i :: 0 <= i < |s| ==> IsSpace(r[i]) == IsSpace(s[i])
  {
    seq(|s|, i requires 0 <= i < |s| => LowerChar(s[i]))
  }

  // ---------------------------------------------------------------------------
  // str.split() with no argument

  /** The longest prefix of s holding no whitespace. */
  function TakeWord(s: string): (w: string)
    ensures |w| <= |s| && w == s[..|w|]
    ensures forall i :: 0 <= i < |w| ==> !IsSpace(w[i])
    ensures |w| == |s| || IsSpace(s[|w|])
  {
    if s == [] || IsSpace(s[0]) then [] else [s[0]] + TakeWord(s[1..])
  }

  /** str.split(): the maximal whitespace-free runs of s, in order; leading,
      trailing and repeated whitespace produce no empty words. */
  function Split(s: string): (ws: seq<string>)
    ensures forall k :: 0 <= k < |ws| ==> IsWord(ws[k])
    decreases |s|
  {
    if s == [] then []
    else if IsSpace(s[0]) then Split(s[1..])
    else
      var w := TakeWord(s);
      [w] + Split(s[|w|..])
  }

  /** The characters of s that are not whitespace, in order. */
  function NonSpace(s: string): string {
    if s == [] then [] else (if IsSpace(s[0]) then [] else [s[0]]) + NonSpace(s[1..])
  }

  function Concat(ws: seq<string>): string {
    if ws == [] then [] else ws[0] + Concat(ws[1..])
  }

  lemma {:induction false} NonSpaceAppend(a: string, b: string)
    ensures NonSpace(a + b) == NonSpace(a) + NonSpace(b)
  {
    if a == [] {
      assert a + b == b;
    } else {
      assert (a + b)[1..] == a[1..] + b;
      NonSpaceAppend(a[1..], b);
    }
  }

  lemma {:induction false} NonSpaceOfSpaceFree(w: string)
    requires forall i :: 0 <= i < |w| ==> !IsSpace(w[i])
    ensures NonSpace(w) == w
  {
    if w != [] {
      NonSpaceOfSpaceFree(w[1..]);
    }
  }

  /** str.split() loses only whitespace: the words, glued back together,
      are exactly the non-whitespace characters of s. */
  lemma {:induction false} SplitKeepsNonSpace(s: string)
    ensures Concat(Split(s)) == NonSpace(s)
    decreases |s|
  {
    if s == [] {
    } else if IsSpace(s[0]) {
      SplitKeepsNonSpace(s[1..]);
    } else {
      var w := TakeWord(s);
      var rest := s[|w|..];
      assert s == w + rest;
      SplitKeepsNonSpace(rest);
      NonSpaceAppend(w, rest);
      NonSpaceOfSpaceFree(w);
      assert ([w] + Split(rest))[1..] == Split(rest);
    }
  }

  /** Every word of str.split() is taken from s, so a string without
      upper-case letters splits into words without them. */
  lemma {:induction false} SplitNoUpper(s: string)
    requires NoUpper(s)
    ensures forall k :: 0 <= k < |Split(s)| ==> NoUpper(Split(s)[k])
    decreases |s|
  {
    if s == [] {
    } else if IsSpace(s[0]) {
      SplitNoUpper(s[1..]);
    } else {
      var w := TakeWord(s);
      SplitNoUpper(s[|w|..]);
      assert forall i :: 0 <= i < |w| ==> w[i] == s[i];
      assert Split(s) == [w] + Split(s[|w|..]);
    }
  }

  lemma {:induction false} TakeWordOfWord(w: string, t: string)
    requires forall i :: 0 <= i < |w| ==> !IsSpace(w[i])
    requires t == [] || IsSpace(t[0])
    ensures TakeWord(w + t) == w
  {
    if w == [] {
      assert w + t == t;
    } else {
      assert (w + t)[1..] == w[1..] + t;
      TakeWordOfWord(w[1..], t);
      assert w == [w[0]] + w[1..];
    }
  }

  lemma SplitWordThen(w: string, t: string)
    requires IsWord(w)
    requires t == [] || IsSpace(t[0])
    ensures Split(w + t) == [w] + Split(t)
  {
    TakeWordOfWord(w, t);
    assert (w + t)[|w|..] == t;
  }

  /** A word on its own splits into just that word. */
  lemma SplitOfWord(w: string)
    requires IsWord(w)
    ensures Split(w) == [w]
  {
    SplitWordThen(w, []);
    assert w + [] == w;
  }

  /** A prefix of s that already stops at whitespace is not lengthened by
      what follows s. */
  lemma {:induction false} TakeWordStops(a: string, t: string)
    requires |TakeWord(a)| < |a|
    ensures TakeWord(a + t) == TakeWord(a)
  {
    if !IsSpace(a[0]) {
      assert (a + t)[1..] == a[1..] + t;
      assert TakeWord(a) == [a[0]] + TakeWord(a[1..]);
      TakeWordStops(a[1..], t);
    }
  }

  /** str.split() cuts at every whitespace character: splitting a string
      around one gives the words of each side. With `Split([]) == []` and
      `Split(w) == [w]` for a word, this pins Split down on every string. */
  lemma {:induction false} SplitAtSpace(a: string, c: char, b: string)
    requires IsSpace(c)
    ensures Split(a + [c] + b) == Split(a) + Split(b)
    decreases |a|
  {
    var s := a + [c] + b;
    if a == [] {
      assert s == [c] + b && s[1..] == b;
    } else if IsSpace(a[0]) {
      assert s[1..] == a[1..] + [c] + b;
      SplitAtSpace(a[1..], c, b);
    } else {
      var w := TakeWord(a);
      if |w| == |a| {
        assert w == a;
        assert s == a + ([c] + b);
        TakeWordOfWord(a, [c] + b);
        assert s[|w|..] == [c] + b && ([c] + b)[1..] == b;
        SplitWordThen(a, []);
        assert a + [] == a;
      } else {
        TakeWordStops(a, [c] + b);
        assert s == a + ([c] + b);
        assert s[|w|..] == a[|w|..] + [c] + b;
        SplitAtSpace(a[|w|..], c, b);
      }
    }
  }

  // ---------------------------------------------------------------------------
  // sep.join(words)

  /** sep.join(ws): the words with sep between each neighbouring pair; it
      is empty for no words and starts with the first word otherwise. */
  function Join(ws: seq<string>, sep: string): (r: string)
    ensures |ws| == 0 ==> r == []
    ensures |ws| >= 1 ==> |ws[0]| <= |r| && r[..|ws[0]|] == ws[0]
  {
    if |ws| == 0 then []
    else if |ws| == 1 then ws[0]
    else ws[0] + sep + Join(ws[1..], sep)
  }

  /** sep.join(ws) holds every character of the words plus one sep for each
      of the |ws| - 1 gaps. */
  lemma {:induction false} JoinLength(ws: seq<string>, sep: string)
    requires |ws| >= 1
    ensures |Join(ws, sep)| == |Concat(ws)| + (|ws| - 1) * |sep|
  {
    if |ws| == 1 {
      assert Concat(ws[1..]) == [];
    } else {
      JoinLength(ws[1..], sep);
      assert (|ws| - 1) * |sep| == |sep| + (|ws| - 2) * |sep|;
    }
  }

  /** Joining words on a single space and splitting the result again gives
      back the same words. */
  lemma {:induction false} SplitJoin(ws: seq<string>)
    requires forall k :: 0 <= k < |ws| ==> IsWord(ws[k])
    ensures Split(Join(ws, " ")) == ws
  {
    if |ws| == 0 {
    } else if |ws| == 1 {
      SplitWordThen(ws[0], []);
      assert ws[0] + [] == ws[0];
    } else {
      var tail := Join(ws[1..], " ");
      SplitJoin(ws[1..]);
      assert Join(ws, " ") == ws[0] + (" " + tail);
      SplitWordThen(ws[0], " " + tail);
      assert (" " + tail)[1..] == tail;
      assert ws == [ws[0]] + ws[1..];
    }
  }

  // ---------------------------------------------------------------------------
  // str.split(sep) with a one-character separator

  function Count(s: string, c: char): nat {
    if s == [] then 0 else (if s[0] == c then 1 else 0) + Count(s[1..], c)
  }

  /** str.split(sep): one field more than there are separators, and no field
      holds the separator. */
  function SplitOn(s: string, sep: char): (fs: seq<string>)
    ensures |fs| == Count(s, sep) + 1
    ensures forall k :: 0 <= k < |fs| ==> sep !in fs[k]
  {
    if s == [] then [[]]
    else
      var rest := SplitOn(s[1..], sep);
      if s[0] == sep then [[]] + rest
      else [[s[0]] + rest[0]] + rest[1..]
  }

  lemma JoinPrependChar(c: char, ws: seq<string>, sep: string)
    requires |ws| >= 1
    ensures Join([[c] + ws[0]] + ws[1..], sep) == [c] + Join(ws, sep)
  {
    var vs := [[c] + ws[0]] + ws[1..];
    if |ws| > 1 {
      assert vs[1..] == ws[1..];
    }
  }

  /** sep.join(s.split(sep)) == s. */
  lemma {:induction false} JoinSplitOn(s: string, sep: char)
    ensures Join(SplitOn(s, sep), [sep]) == s
  {
    if s != [] {
      var rest := SplitOn(s[1..], sep);
      JoinSplitOn(s[1..], sep);
      if s[0] == sep {
        assert ([[]] + rest)[1..] == rest;
        assert s == [sep] + s[1..];
      } else {
        JoinPrependChar(s[0], rest, [sep]);
        assert s == [s[0]] + s[1..];
      }
    }
  }

  lemma {:induction false} SplitOnFieldThen(w: string, t: string, sep: char)
    requires sep !in w
    ensures SplitOn(w + t, sep) == [w + SplitOn(t, sep)[0]] + SplitOn(t, sep)[1..]
  {
    if w == [] {
      var fs := SplitOn(t, sep);
      assert w + t == t && w + fs[0] == fs[0];
      assert [fs[0]] + fs[1..] == fs;
    } else {
      assert (w + t)[1..] == w[1..] + t;
      SplitOnFieldThen(w[1..], t, sep);
      assert [w[0]] + (w[1..] + SplitOn(t, sep)[0]) == w + SplitOn(t, sep)[0];
    }
  }

  /** s.split(sep) undoes sep.join(fs) when no field holds sep. */
  lemma {:induction false} SplitOnJoin(fs: seq<string>, sep: char)
    requires |fs| >= 1
    requires forall k :: 0 <= k < |fs| ==> sep !in fs[k]
    ensures SplitOn(Join(fs, [sep]), sep) == fs
    decreases |fs|
  {
    if |fs| == 1 {
      SplitOnFieldThen(fs[0], [], sep);
      assert fs[0] + [] == fs[0];
    } else {
      var tail := Join(fs[1..], [sep]);
      SplitOnJoin(fs[1..], sep);
      assert Join(fs, [sep]) == fs[0] + ([sep] + tail);
      assert ([sep] + tail)[1..] == tail;
      SplitOnFieldThen(fs[0], [sep] + tail, sep);
      assert fs[0] + [] == fs[0];
      assert fs == [fs[0]] + fs[1..];
    }
  }
}
