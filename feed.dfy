/** What rnnlm.py does with one padded batch `s` (a batch_size x max_len
    array of word ids, rows in row-major order): the next-token shift that
    feeds the model (`x = s[:, :-1]`, `y = s[:, 1:]`) and GetText, which
    spells out the first `seq_len` ids of row 0 through the vocabulary. */
module Feed {
  import opened Results
  import opened Strings

  type Batch = seq<seq<int>>

  /** Every row of s has `width` columns, as in a 2-D array. */
  predicate IsMatrix(s: Batch, width: nat) {
    forall r :: 0 <= r < |s| ==> |s[r]| == width
  }

  // ---------------------------------------------------------------------------
  // The next-token shift

  function DropLast(row: seq<int>): seq<int> {
    if |row| == 0 then [] else row[..|row| - 1]
  }

  function DropFirst(row: seq<int>): seq<int> {
    if |row| == 0 then [] else row[1..]
  }

  /** `s[:, :-1]`: every row without its last column. */
  function Inputs(s: Batch): (x: Batch)
    ensures |x| == |s|
    ensures forall r :: 0 <= r < |s| ==> |x[r]| == if |s[r]| == 0 then 0 else |s[r]| - 1
    ensures forall r, j :: 0 <= r < |s| && 0 <= j < |x[r]| ==> x[r][j] == s[r][j]
  {
    seq(|s|, r requires 0 <= r < |s| => DropLast(s[r]))
  }

  /** `s[:, 1:]`: every row without its first column. */
  function Targets(s: Batch): (y: Batch)
    ensures |y| == |s|
    ensures forall r :: 0 <= r < |s| ==> |y[r]| == if |s[r]| == 0 then 0 else |s[r]| - 1
    ensures forall r, j :: 0 <= r < |s| && 0 <= j < |y[r]| ==> y[r][j] == s[r][j + 1]
  {
    seq(|s|, r requires 0 <= r < |s| => DropFirst(s[r]))
  }

  /** For a batch of width W >= 1, inputs and targets both have width W - 1;
      the target at column j is the input at column j + 1, that is, the
      token the model must predict after reading column j; and each row of
      the batch is its input row plus its last token, or its first token
      plus its target row. */
  lemma ShiftAlignment(s: Batch, width: nat)
    requires IsMatrix(s, width) && width >= 1
    ensures IsMatrix(Inputs(s), width - 1) && IsMatrix(Targets(s), width - 1)
    ensures forall r, j :: 0 <= r < |s| && 0 <= j < width - 2 ==> Targets(s)[r][j] == Inputs(s)[r][j + 1]
    ensures forall r :: 0 <= r < |s| ==> s[r] == Inputs(s)[r] + [s[r][width - 1]]
    ensures forall r :: 0 <= r < |s| ==> s[r] == [s[r][0]] + Targets(s)[r]
  {
  }

  // ---------------------------------------------------------------------------
  // GetText

  /** Why GetText raises: `s[0, i]` on a batch with no row, `s[0, i]` past the
      last column (both IndexError), or an id the vocabulary does not know
      (KeyError). */
  datatype LookupError = RowMissing | ColumnOutOfRange(col: nat) | UnknownId(col: nat, id: int)

  /** `[idx_to_word[row[i]] for i in range(n)]`, failing at the first column
      that is out of range or holds an unknown id. */
  function RowWords(row: seq<int>, n: nat, idxToWord: map<int, string>): (r: Result<seq<string>, LookupError>)
    ensures r.Success? <==> n <= |row| && forall i :: 0 <= i < n ==> row[i] in idxToWord
    ensures r.Success? ==> |r.value| == n && forall i :: 0 <= i < n ==> r.value[i] == idxToWord[row[i]]
    ensures r.Failure? && r.error.ColumnOutOfRange? ==>
      r.error.col == |row| < n && forall i :: 0 <= i < |row| ==> row[i] in idxToWord
    ensures r.Failure? && r.error.UnknownId? ==>
      r.error.col < n && r.error.col < |row| && r.error.id == row[r.error.col] &&
      r.error.id !in idxToWord && forall i :: 0 <= i < r.error.col ==> row[i] in idxToWord
    ensures r.Failure? ==> !r.error.RowMissing?
  {
    if n == 0 then Success([])
    else
      match RowWords(row, n - 1, idxToWord)
      case Failure(e) => Failure(e)
      case Success(ws) =>
        if n - 1 >= |row| then Failure(ColumnOutOfRange(n - 1))
        else if row[n - 1] !in idxToWord then Failure(UnknownId(n - 1, row[n - 1]))
        else Success(ws + [idxToWord[row[n - 1]]])
  }

  /** GetText(s, seq_len): the space-join of the words of the first
      `seqLen` ids of row 0. It succeeds exactly when there are that many
      columns in row 0 and every one of those ids is in the vocabulary
      (a non-positive `seqLen` reads nothing and gives the empty text). */
  function GetText(s: Batch, seqLen: int, idxToWord: map<int, string>): (r: Result<string, LookupError>)
    ensures r.Success? <==>
      seqLen <= 0 || (|s| > 0 && seqLen <= |s[0]| && forall i :: 0 <= i < seqLen ==> s[0][i] in idxToWord)
    ensures r.Failure? && r.error.RowMissing? ==> |s| == 0 && seqLen > 0
    ensures seqLen <= 0 ==> r == Success([])
    ensures r.Success? && seqLen > 0 ==>
      r.value == Join(seq(seqLen, i requires 0 <= i < seqLen => idxToWord[s[0][i]]), " ")
  {
    if seqLen <= 0 then Success([])
    else if |s| == 0 then Failure(RowMissing)
    else
      match RowWords(s[0], seqLen, idxToWord)
      case Failure(e) => Failure(e)
      case Success(ws) =>
        assert ws == seq(seqLen, i requires 0 <= i < seqLen => idxToWord[s[0][i]]);
        Success(Join(ws, " "))
  }

  /** When the vocabulary's words are whitespace-free, the text GetText
      returns splits back into exactly `seqLen` words, the i-th being the
      word of id `s[0][i]`. */
  lemma GetTextWords(s: Batch, seqLen: nat, idxToWord: map<int, string>)
    requires forall id :: id in idxToWord ==> IsWord(idxToWord[id])
    requires GetText(s, seqLen, idxToWord).Success?
    ensures var ws := Split(GetText(s, seqLen, idxToWord).value);
      |ws| == seqLen && forall i :: 0 <= i < seqLen ==> ws[i] == idxToWord[s[0][i]]
  {
    if seqLen > 0 {
      assert RowWords(s[0], seqLen, idxToWord).Success?;
      var ws := RowWords(s[0], seqLen, idxToWord).value;
      assert GetText(s, seqLen, idxToWord).value == Join(ws, " ");
      forall k | 0 <= k < |ws|
        ensures IsWord(ws[k])
      {
        var id := s[0][k];
        assert id in idxToWord && ws[k] == idxToWord[id];
        assert IsWord(idxToWord[id]);
      }
      SplitJoin(ws);
    }
  }

  /** GetText reads no row but row 0. */
  lemma GetTextRowZeroOnly(s: Batch, t: Batch, seqLen: int, idxToWord: map<int, string>)
    requires |s| > 0 && |t| > 0 && s[0] == t[0]
    ensures GetText(s, seqLen, idxToWord) == GetText(t, seqLen, idxToWord)
  {
  }
}
