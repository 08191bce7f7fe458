/**
 * Bytes, line feeds, and the specification of "where is the previous line
 * boundary" that the backward seeker and the tailing reader are proved against.
 */
module Lines {

  /** One byte of a log file. */
  newtype byte = x: int | 0 <= x < 256

  /** The line-feed byte '\n' that terminates every complete log line. */
  const LF: byte := 10

  /** True when `s` holds no line feed. */
  predicate NoLineFeed(s: seq<byte>) {
    forall i :: 0 <= i < |s| ==> s[i] != LF
  }

  /** `Span<byte>.LastIndexOf`: the greatest index of `b` in `s`, or -1 when there is none. */
  function LastIndexOf(s: seq<byte>, b: byte): (r: int)
    ensures -1 <= r < |s|
    ensures r >= 0 ==> s[r] == b
    ensures forall j :: r < j < |s| ==> s[j] != b
  {
    if |s| == 0 then -1
    else if s[|s| - 1] == b then |s| - 1
    else LastIndexOf(s[..|s| - 1], b)
  }

  /** The contract of LastIndexOf pins its value down: it is the one index that
      holds `b` with no `b` after it, and -1 exactly when `b` does not occur. */
  lemma LastIndexOfDetermined(s: seq<byte>, b: byte, i: int)
    requires -1 <= i < |s|
    requires i >= 0 ==> s[i] == b
    requires forall j :: i < j < |s| ==> s[j] != b
    ensures LastIndexOf(s, b) == i
  {
  }

  /** A suffix free of `b` does not move the last occurrence of `b`. */
  lemma LastIndexOfSkipsSuffix(a: seq<byte>, t: seq<byte>, b: byte)
    requires forall j :: 0 <= j < |t| ==> t[j] != b
    ensures LastIndexOf(a + t, b) == LastIndexOf(a, b)
  {
    var s := a + t;
    var i := LastIndexOf(a, b);
    forall j | i < j < |s| ensures s[j] != b {
      if j < |a| { assert s[j] == a[j]; } else { assert s[j] == t[j - |a|]; }
    }
    LastIndexOfDetermined(s, b, i);
  }

  /**
   * The line feed the backward search stops on when it starts at offset `p`:
   * the greatest index below `p` holding LF, or -1 when there is none. A start
   * beyond the end of the data finds nothing, because its first chunk read
   * comes back short.
   */
  function PrevLineFeed(data: seq<byte>, p: int): (r: int)
    requires 0 <= p
    ensures -1 <= r < p && r < |data|
    ensures r >= 0 ==> data[r] == LF
  {
    if p <= |data| then LastIndexOf(data[..p], LF) else -1
  }

  /**
   * Where a "go to the start of the previous line" seek from offset `p` lands:
   * one past the line feed before the line feed found from `p` (0 when there is
   * no earlier one), or -1 when no line feed precedes `p` at all.
   */
  function LineStartBefore(data: seq<byte>, p: int): (r: int)
    requires 0 <= p
  {
    var j := PrevLineFeed(data, p);
    if j < 0 then -1 else PrevLineFeed(data, j) + 1
  }

  /** The offset the reader takes as its cursor when it opens a file: the start of
      the last complete line, or -1 while the file holds no line feed. */
  function LastLineStart(data: seq<byte>): int {
    LineStartBefore(data, |data|)
  }

  /** The line-boundary search from `p` finds something exactly when a line feed
      lies below `p`, and then lands on a line start: offset 0 or just after an LF,
      with exactly one line feed between it and `p`, the one the search stopped on. */
  lemma LineStartBeforeSpec(data: seq<byte>, p: int)
    requires 0 <= p <= |data|
    ensures var r := LineStartBefore(data, p);
      && (r == -1 <==> NoLineFeed(data[..p]))
      && (r >= 0 ==>
            var j := PrevLineFeed(data, p);
            && 0 <= r <= j < p && data[j] == LF
            && (forall k :: j < k < p ==> data[k] != LF)
            && (forall k :: r <= k < j ==> data[k] != LF)
            && (r == 0 || data[r - 1] == LF))
  {
    var r := LineStartBefore(data, p);
    var j := PrevLineFeed(data, p);
    if r == -1 {
      assert j == -1;
      forall i | 0 <= i < |data[..p]| ensures data[..p][i] != LF { }
    } else {
      assert data[..p][j] == LF;
      forall k | j < k < p ensures data[k] != LF { assert data[..p][k] == data[k]; }
      var q := PrevLineFeed(data, j);
      forall k | r <= k < j ensures data[k] != LF { assert data[..j][k] == data[k]; }
    }
  }

  /** The file opens on offset -1 exactly when it holds no line feed; otherwise on
      the start of its last complete line, the line that ends at its last LF. */
  lemma LastLineStartSpec(data: seq<byte>)
    ensures var r := LastLineStart(data);
      && (r == -1 <==> NoLineFeed(data))
      && (r >= 0 ==>
            var j := LastIndexOf(data, LF);
            && 0 <= r <= j < |data| && data[j] == LF
            && (forall k :: r <= k < j ==> data[k] != LF)
            && (r == 0 || data[r - 1] == LF))
  {
    var all := data[..|data|];
    assert all == data;
    var j := PrevLineFeed(data, |data|);
    assert j == LastIndexOf(data, LF);
    LineStartBeforeSpec(data, |data|);
    var r := LastLineStart(data);
    assert r == -1 <==> NoLineFeed(all);
    if r >= 0 {
      assert 0 <= r <= j < |data| && data[j] == LF;
      assert r == 0 || data[r - 1] == LF;
    }
  }

  /** The bytes of a file made of complete lines: each line followed by its LF. */
  function Join(lines: seq<seq<byte>>): seq<byte> {
    if lines == [] then [] else Join(lines[..|lines| - 1]) + lines[|lines| - 1] + [LF]
  }

  /** The first `k` lines of a file are a prefix of its bytes. */
  lemma {:induction false} JoinPrefix(lines: seq<seq<byte>>, k: nat)
    requires k <= |lines|
    ensures |Join(lines[..k])| <= |Join(lines)|
    ensures Join(lines)[..|Join(lines[..k])|] == Join(lines[..k])
  {
    if k < |lines| {
      var init := lines[..|lines| - 1];
      assert init[..k] == lines[..k];
      JoinPrefix(init, k);
      assert Join(lines) == Join(init) + lines[|lines| - 1] + [LF];
    } else {
      assert lines[..k] == lines;
    }
  }

  /** A non-empty joined file ends in a line feed. */
  lemma JoinEndsInLineFeed(lines: seq<seq<byte>>)
    requires lines != []
    ensures |Join(lines)| > 0 && Join(lines)[|Join(lines)| - 1] == LF
  {
  }

  /**
   * Backward line recovery. In a file made of LF-free lines (empty lines
   * included), a seek from the start of line k+1 (the end of the file for the
   * last line) lands on the start of line k, and the bytes between the two are
   * exactly line k and its LF. From offset 0 the seek reports "not found".
   * Repeating the seek from the end therefore yields every line, last first.
   */
  lemma SeekRecoversPreviousLine(lines: seq<seq<byte>>, k: nat)
    requires forall i :: 0 <= i < |lines| ==> NoLineFeed(lines[i])
    requires k < |lines|
    ensures var data := Join(lines);
      var s := |Join(lines[..k])|;
      var e := |Join(lines[..k + 1])|;
      && s < e <= |data|
      && LineStartBefore(data, e) == s
      && data[s..e] == lines[k] + [LF]
      && LineStartBefore(data, 0) == -1
  {
    var data := Join(lines);
    var before := Join(lines[..k]);
    var upTo := Join(lines[..k + 1]);
    assert (lines[..k + 1])[..k] == lines[..k];
    assert upTo == before + lines[k] + [LF];
    var s, e := |before|, |upTo|;
    JoinPrefix(lines, k + 1);
    assert data[..e] == upTo;
    // the search from e stops on the LF that ends line k
    LastIndexOfDetermined(upTo, LF, e - 1);
    assert PrevLineFeed(data, e) == e - 1;
    // the search from e - 1 skips line k and stops on the LF that ends line k - 1
    assert data[..e - 1] == before + lines[k];
    LastIndexOfSkipsSuffix(before, lines[k], LF);
    if k == 0 {
      assert before == [];
    } else {
      assert lines[..k] != [];
      JoinEndsInLineFeed(lines[..k]);
      LastIndexOfDetermined(before, LF, s - 1);
    }
    assert PrevLineFeed(data, e - 1) == s - 1;
    assert data[s..e] == upTo[s..e];
  }
}
