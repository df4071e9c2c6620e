/** The corpus record reader of rnnlm.py: `username<TAB>text` lines become two
    aligned lists, usernames and sentence-marked token lists, keeping a fixed
    positional tenth of the lines for evaluation and the rest for training,
    and reading no further than a line-index limit. */
module CorpusReader {
  import opened Results
  import opened Strings

  /** The --mode choices. Only the test `mode == 'train'` matters to the reader. */
  datatype Mode = Train | Debug | Eval

  /** The default value of ReadData's `limit` argument. */
  const DefaultLimit: int := 2500000

  const BeginToken: string := "<S>"
  const EndToken: string := "</S>"

  /** `username, text = line.split('\t')` raises: the line at `index` split
      into `fields` fields instead of two. */
  datatype ReadError = MalformedLine(index: nat, fields: nat)

  datatype Corpus = Corpus(usernames: seq<string>, texts: seq<seq<string>>)

  // ---------------------------------------------------------------------------
  // One line

  function Fields(line: string): seq<string> {
    SplitOn(line, Tab)
  }

  /** The tuple unpack succeeds. */
  predicate WellFormed(line: string) {
    |Fields(line)| == 2
  }

  function Username(line: string): string
    requires WellFormed(line)
  {
    Fields(line)[0]
  }

  function TextOf(line: string): string
    requires WellFormed(line)
  {
    Fields(line)[1]
  }

  /** A line unpacks into two fields exactly when it holds one tab; the two
      fields are what lies on either side of it, and any tab-free username
      and text written out as `username<TAB>text` read back unchanged. */
  lemma LineRoundTrip(line: string, username: string, text: string)
    ensures WellFormed(line) <==> Count(line, Tab) == 1
    ensures WellFormed(line) ==>
      Tab !in Username(line) && Tab !in TextOf(line) &&
      line == Username(line) + [Tab] + TextOf(line)
    ensures Tab !in username && Tab !in text ==>
      var written := username + [Tab] + text;
      WellFormed(written) && Username(written) == username && TextOf(written) == text
  {
    JoinSplitOn(line, Tab);
    if WellFormed(line) {
      assert Fields(line)[1..] == [TextOf(line)];
    }
    if Tab !in username && Tab !in text {
      var fs := [username, text];
      assert Join(fs, [Tab]) == username + [Tab] + text;
      SplitOnJoin(fs, Tab);
    }
  }

  /** `['<S>'] + text.lower().split() + ['</S>']`: at least the two markers,
      and between them lower-case whitespace-free words, none of which can be
      a marker since the markers hold an upper-case letter. */
  function Tokenize(text: string): (ts: seq<string>)
    ensures |ts| >= 2 && ts[0] == BeginToken && ts[|ts| - 1] == EndToken
    ensures forall k :: 0 < k < |ts| - 1 ==> IsWord(ts[k]) && NoUpper(ts[k])
    ensures forall k :: 0 < k < |ts| - 1 ==> ts[k] != BeginToken && ts[k] != EndToken
  {
    var words := Split(Lower(text));
    SplitNoUpper(Lower(text));
    assert IsUpper(BeginToken[1]) && IsUpper(EndToken[2]);
    [BeginToken] + words + [EndToken]
  }

  /** The inner tokens are exactly the non-whitespace characters of the text,
      lowered, cut at whitespace. */
  lemma TokenizeKeepsText(text: string)
    ensures var ts := Tokenize(text);
      Concat(ts[1..|ts| - 1]) == NonSpace(Lower(text))
  {
    var ts := Tokenize(text);
    assert ts[1..|ts| - 1] == Split(Lower(text));
    SplitKeepsNonSpace(Lower(text));
  }

  // ---------------------------------------------------------------------------
  // Which lines are read and which are kept

  /** Line `i` belongs to the split selected by `mode`: training keeps every
      index not divisible by ten, every other mode keeps the rest. */
  predicate InSplit(mode: Mode, i: nat) {
    if mode == Train then i % 10 != 0 else i % 10 == 0
  }

  /** How many of `n` lines have an index of at most `limit`. */
  function Eligible(n: nat, limit: int): (e: nat)
    ensures e <= n
  {
    if limit < 0 then 0 else if n <= limit then n else limit + 1
  }

  /** How many lines are split on the tab: the eligible ones and, when there
      is one, the first line past the limit, which is split before the limit
      test stops the loop. */
  function Reached(n: nat, limit: int): (m: nat)
    ensures Eligible(n, limit) <= m <= n
    ensures m <= Eligible(n, limit) + 1
  {
    if Eligible(n, limit) < n then Eligible(n, limit) + 1 else n
  }

  /** Line `i` of `n` lines is split on the tab exactly when it exists and is
      the first line or comes at most one past the limit. */
  lemma ReachedLines(n: nat, limit: int, i: nat)
    ensures i < Reached(n, limit) <==> i < n && (i == 0 || i <= limit + 1)
  {
  }

  /** The indices below `e` in the split of `mode`, in increasing order. */
  function KeptIndices(e: nat, mode: Mode): (ks: seq<nat>)
    ensures forall k :: 0 <= k < |ks| ==> ks[k] < e && InSplit(mode, ks[k])
  {
    if e == 0 then []
    else KeptIndices(e - 1, mode) + (if InSplit(mode, e - 1) then [e - 1] else [])
  }

  lemma {:induction false} KeptIndicesMembership(e: nat, mode: Mode, i: nat)
    ensures i in KeptIndices(e, mode) <==> i < e && InSplit(mode, i)
  {
    if e > 0 {
      KeptIndicesMembership(e - 1, mode, i);
    }
  }

  /** Line `i` of `n` lines is kept exactly when its index is within the
      limit and belongs to the split of `mode`. */
  lemma SelectedLines(n: nat, limit: int, mode: Mode, i: nat)
    ensures i in KeptIndices(Eligible(n, limit), mode) <==> i < n && i <= limit && InSplit(mode, i)
  {
    KeptIndicesMembership(Eligible(n, limit), mode, i);
  }

  /** Kept lines come out in file order. */
  lemma {:induction false} KeptIndicesIncreasing(e: nat, mode: Mode)
    ensures forall a, b :: 0 <= a < b < |KeptIndices(e, mode)| ==>
      KeptIndices(e, mode)[a] < KeptIndices(e, mode)[b]
  {
    if e > 0 {
      KeptIndicesIncreasing(e - 1, mode);
      var prev := KeptIndices(e - 1, mode);
      var ks := KeptIndices(e, mode);
      forall a, b | 0 <= a < b < |ks|
        ensures ks[a] < ks[b]
      {
        if b >= |prev| {
          assert ks[b] == e - 1 && ks[a] == prev[a];
          assert prev[a] < e - 1;
        } else {
          assert ks[a] == prev[a] && ks[b] == prev[b];
          assert prev[a] < prev[b];
        }
      }
    }
  }

  /** Reading the same lines in training mode and in any other mode keeps
      disjoint sets of indices that together cover every eligible index. */
  lemma {:induction false} SplitsPartition(e: nat, mode: Mode)
    requires mode != Train
    ensures forall i :: 0 <= i < e ==> (i in KeptIndices(e, Train) <==> i !in KeptIndices(e, mode))
  {
    forall i | 0 <= i < e
      ensures i in KeptIndices(e, Train) <==> i !in KeptIndices(e, mode)
    {
      KeptIndicesMembership(e, Train, i);
      KeptIndicesMembership(e, mode, i);
    }
  }

  /** The split depends only on whether the mode is training: debug and
      evaluation runs read the same lines. */
  lemma {:induction false} NonTrainModesAgree(e: nat)
    ensures KeptIndices(e, Debug) == KeptIndices(e, Eval)
  {
    if e > 0 {
      NonTrainModesAgree(e - 1);
    }
  }

  /** Outside training the kept indices are exactly 0, 10, 20, ... below `e`. */
  lemma {:induction false} HeldOutIndices(e: nat, mode: Mode)
    requires mode != Train
    ensures KeptIndices(e, mode) == seq((e + 9) / 10, k => 10 * k)
  {
    if e > 0 {
      HeldOutIndices(e - 1, mode);
      var prev := seq((e - 1 + 9) / 10, k => 10 * k);
      if (e - 1) % 10 == 0 {
        assert (e + 9) / 10 == (e - 1 + 9) / 10 + 1;
        assert seq((e + 9) / 10, k => 10 * k) == prev + [e - 1];
      } else {
        assert (e + 9) / 10 == (e - 1 + 9) / 10;
      }
    }
  }

  /** Training keeps all eligible indices but the multiples of ten. */
  lemma {:induction false} TrainCount(e: nat)
    ensures |KeptIndices(e, Train)| == e - (e + 9) / 10
  {
    if e > 0 {
      TrainCount(e - 1);
      if (e - 1) % 10 == 0 {
        assert (e + 9) / 10 == (e - 1 + 9) / 10 + 1;
      } else {
        assert (e + 9) / 10 == (e - 1 + 9) / 10;
      }
    }
  }

  /** In training the k-th kept index is k + k / 9 + 1: the nine indices of
      each block of ten after its multiple of ten. */
  lemma {:induction false} TrainIndices(e: nat)
    ensures KeptIndices(e, Train) == seq(e - (e + 9) / 10, k => k + k / 9 + 1)
  {
    if e > 0 {
      TrainIndices(e - 1);
      var prev := seq(e - 1 - (e - 1 + 9) / 10, k => k + k / 9 + 1);
      var q, r := (e - 1) / 10, (e - 1) % 10;
      assert e - 1 == 10 * q + r && 0 <= r < 10;
      if r == 0 {
        assert (e + 9) / 10 == q + 1 && (e - 1 + 9) / 10 == q;
      } else {
        assert (e + 9) / 10 == q + 1 && (e - 1 + 9) / 10 == q + 1;
        var len := |prev|;
        assert len == 9 * q + (r - 1);
        assert len / 9 == q;
        assert seq(e - (e + 9) / 10, k => k + k / 9 + 1) == prev + [e - 1];
      }
    }
  }

  // ---------------------------------------------------------------------------
  // ReadData

  /** `usernames` and `texts` are, entry by entry, the username and the
      tokenised text of the lines at the indices `ks`. */
  predicate Records(lines: seq<string>, ks: seq<nat>, usernames: seq<string>, texts: seq<seq<string>>) {
    |usernames| == |ks| && |texts| == |ks| &&
    forall k :: 0 <= k < |ks| ==>
      ks[k] < |lines| && WellFormed(lines[ks[k]]) &&
      usernames[k] == Username(lines[ks[k]]) &&
      texts[k] == Tokenize(TextOf(lines[ks[k]]))
  }

  lemma RecordsAppend(lines: seq<string>, ks: seq<nat>, usernames: seq<string>, texts: seq<seq<string>>, i: nat)
    requires Records(lines, ks, usernames, texts)
    requires i < |lines| && WellFormed(lines[i])
    ensures Records(lines, ks + [i], usernames + [Username(lines[i])], texts + [Tokenize(TextOf(lines[i]))])
  {
  }

  lemma KeptIndicesStep(i: nat, mode: Mode)
    ensures KeptIndices(i + 1, mode) == KeptIndices(i, mode) + (if InSplit(mode, i) then [i] else [])
  {
  }

  /** The loop stops at line `stop` of `n`: either past the limit, or because
      the lines ran out. Then the eligible lines are those before `stop`, and
      the line at `stop`, if any, is the last one split on the tab. */
  lemma LoopStop(n: nat, limit: int, stop: nat)
    requires stop <= n
    requires stop == 0 || stop <= limit + 1
    requires stop < n ==> stop > limit
    ensures Eligible(n, limit) == stop
    ensures Reached(n, limit) == if stop < n then stop + 1 else n
  {
  }

  /** ReadData over the lines of the corpus, in file order. It fails on the
      first reached line that does not unpack into two fields; otherwise it
      returns, for every kept index in order, that line's username and its
      tokenised text. */
  method ReadData(lines: seq<string>, mode: Mode, limit: int) returns (r: Result<Corpus, ReadError>)
    ensures r.Success? <==> forall i :: 0 <= i < Reached(|lines|, limit) ==> WellFormed(lines[i])
    ensures r.Failure? ==>
      var i := r.error.index;
      i < Reached(|lines|, limit) && !WellFormed(lines[i]) && r.error.fields == |Fields(lines[i])| &&
      forall j :: 0 <= j < i ==> WellFormed(lines[j])
    ensures r.Success? ==>
      Records(lines, KeptIndices(Eligible(|lines|, limit), mode), r.value.usernames, r.value.texts)
  {
    var usernames: seq<string> := [];
    var texts: seq<seq<string>> := [];
    ghost var kept: seq<nat> := [];
    for idnum: nat := 0 to |lines|
      invariant idnum == 0 || idnum <= limit + 1
      invariant forall j :: 0 <= j < idnum ==> WellFormed(lines[j])
      invariant kept == KeptIndices(idnum, mode)
      invariant Records(lines, kept, usernames, texts)
    {
      var fields := SplitOn(lines[idnum], Tab);
      if |fields| != 2 {
        ReachedLines(|lines|, limit, idnum);
        assert idnum < Reached(|lines|, limit);
        return Failure(MalformedLine(idnum, |fields|));
      }
      var username, text := fields[0], fields[1];

      if idnum > limit {
        // `break` leads straight to the final return
        LoopStop(|lines|, limit, idnum);
        return Success(Corpus(usernames, texts));
      }

      KeptIndicesStep(idnum, mode);
      if mode == Train && idnum % 10 < 1 {
        assert !InSplit(mode, idnum);
        continue;
      }
      if mode != Train && idnum % 10 >= 1 {
        assert !InSplit(mode, idnum);
        continue;
      }

      assert InSplit(mode, idnum);
      RecordsAppend(lines, kept, usernames, texts, idnum);
      usernames := usernames + [username];
      texts := texts + [Tokenize(text)];
      kept := kept + [idnum];
    }
    LoopStop(|lines|, limit, |lines|);
    return Success(Corpus(usernames, texts));
  }

  /** Thirty well-formed lines read outside training at the default limit
      give the records of the lines at indices 0, 10 and 20. */
  method ReadThirtyHeldOut(lines: seq<string>, mode: Mode) returns (held: Result<Corpus, ReadError>)
    requires mode != Train
    requires |lines| == 30
    requires forall i :: 0 <= i < |lines| ==> WellFormed(lines[i])
    ensures held.Success?
    ensures held.value.usernames == [Username(lines[0]), Username(lines[10]), Username(lines[20])]
    ensures held.value.texts == [Tokenize(TextOf(lines[0])), Tokenize(TextOf(lines[10])), Tokenize(TextOf(lines[20]))]
  {
    assert Eligible(|lines|, DefaultLimit) == |lines| && Reached(|lines|, DefaultLimit) == |lines|;
    held := ReadData(lines, mode, DefaultLimit);
    HeldOutOfThirty(|lines|, mode);
    RecordsOfThree(lines, 0, 10, 20, held.value.usernames, held.value.texts);
  }

  /** The same thirty lines read in training mode give the other 27 records. */
  method ReadThirtyTrain(lines: seq<string>) returns (train: Result<Corpus, ReadError>)
    requires |lines| == 30
    requires forall i :: 0 <= i < |lines| ==> WellFormed(lines[i])
    ensures train.Success?
    ensures |train.value.usernames| == 27 && |train.value.texts| == 27
    ensures forall k :: 0 <= k < 27 ==>
      train.value.usernames[k] == Username(lines[k + k / 9 + 1]) &&
      train.value.texts[k] == Tokenize(TextOf(lines[k + k / 9 + 1]))
  {
    assert Eligible(|lines|, DefaultLimit) == |lines| && Reached(|lines|, DefaultLimit) == |lines|;
    train := ReadData(lines, Train, DefaultLimit);
    TrainRecordsOfThirty(lines, train.value.usernames, train.value.texts);
  }

  lemma HeldOutOfThirty(n: nat, mode: Mode)
    requires mode != Train
    requires n == 30
    ensures KeptIndices(n, mode) == [0, 10, 20]
  {
    HeldOutIndices(n, mode);
    assert (n + 9) / 10 == 3;
    var tens := seq(3, (k: int) => 10 * k);
    assert |tens| == 3 && tens[0] == 0 && tens[1] == 10 && tens[2] == 20;
    assert tens == [0, 10, 20];
  }

  lemma TrainRecordsOfThirty(lines: seq<string>, usernames: seq<string>, texts: seq<seq<string>>)
    requires |lines| == 30
    requires forall i :: 0 <= i < |lines| ==> WellFormed(lines[i])
    requires Records(lines, KeptIndices(|lines|, Train), usernames, texts)
    ensures |usernames| == 27 && |texts| == 27
    ensures forall k :: 0 <= k < 27 ==>
      usernames[k] == Username(lines[k + k / 9 + 1]) && texts[k] == Tokenize(TextOf(lines[k + k / 9 + 1]))
  {
    TrainOfThirty(|lines|);
    var ks := KeptIndices(|lines|, Train);
    forall k | 0 <= k < 27
      ensures usernames[k] == Username(lines[k + k / 9 + 1]) && texts[k] == Tokenize(TextOf(lines[k + k / 9 + 1]))
    {
      assert ks[k] == k + k / 9 + 1;
    }
  }

  lemma TrainOfThirty(n: nat)
    requires n == 30
    ensures |KeptIndices(n, Train)| == 27
    ensures forall k :: 0 <= k < 27 ==> KeptIndices(n, Train)[k] == k + k / 9 + 1
  {
    TrainIndices(n);
    assert (n + 9) / 10 == 3;
  }

  lemma RecordsOfThree(lines: seq<string>, a: nat, b: nat, c: nat, usernames: seq<string>, texts: seq<seq<string>>)
    requires Records(lines, [a, b, c], usernames, texts)
    ensures a < |lines| && b < |lines| && c < |lines|
    ensures WellFormed(lines[a]) && WellFormed(lines[b]) && WellFormed(lines[c])
    ensures usernames == [Username(lines[a]), Username(lines[b]), Username(lines[c])]
    ensures texts == [Tokenize(TextOf(lines[a])), Tokenize(TextOf(lines[b])), Tokenize(TextOf(lines[c]))]
  {
    var ks := [a, b, c];
    assert ks[0] == a && ks[1] == b && ks[2] == c;
  }
}
