/** `display_raw_data`: showing the filtered rows five at a time while the user answers yes. */
module RawData {

  /** The number of rows shown per answer. */
  const ChunkSize: nat := 5

  /** Why the paging stopped. */
  datatype Stop =
    | AllShown      // every row was shown (or there were none)
    | Declined      // an answer other than "yes"
    | OutOfReplies  // no answer left to read: `input()` raises EOFError

  /** `s.lower()` for ASCII letters. */
  function LowerAscii(s: string): (r: string)
    ensures |r| == |s|
    ensures forall i :: 0 <= i < |s| ==> r[i] == if 'A' <= s[i] <= 'Z' then (s[i] as int + 32) as char else s[i]
  {
    if s == [] then []
    else [if 'A' <= s[0] <= 'Z' then (s[0] as int + 32) as char else s[0]] + LowerAscii(s[1..])
  }

  /** The answer asks for more rows: `show_data.lower() == 'yes'`. */
  predicate IsYes(reply: string) {
    LowerAscii(reply) == "yes"
  }

  /** The answer is "yes" in any mix of upper and lower case, and nothing else. */
  lemma IsYesIgnoresCase(reply: string)
    ensures IsYes(reply) <==>
      && |reply| == 3
      && reply[0] in {'y', 'Y'}
      && reply[1] in {'e', 'E'}
      && reply[2] in {'s', 'S'}
  {
    var low := LowerAscii(reply);
    if |reply| == 3 {
      assert low[0] == 'y' <==> reply[0] in {'y', 'Y'};
      assert low[1] == 'e' <==> reply[1] in {'e', 'E'};
      assert low[2] == 's' <==> reply[2] in {'s', 'S'};
      assert IsYes(reply) <==> low[0] == 'y' && low[1] == 'e' && low[2] == 's';
    }
  }

  function Min(a: int, b: int): int {
    if a <= b then a else b
  }

  /** The pages put back together, in order. */
  function Flatten<T>(pages: seq<seq<T>>): seq<T> {
    if pages == [] then [] else Flatten(pages[..|pages| - 1]) + pages[|pages| - 1]
  }

  /**
   * `display_raw_data` on the rows `rows` with the user's answers `replies`: page `i` is
   * `rows[5i .. min(5i + 5, len)]`, shown because answer `i` was yes. The pages are contiguous
   * and together form a prefix of the rows. The loop stops once every row is shown, at the first
   * answer that is not yes, or when no answer is left.
   */
  method DisplayRawData<T>(rows: seq<T>, replies: seq<string>) returns (pages: seq<seq<T>>, stop: Stop)
    ensures |pages| <= |replies|
    ensures forall i :: 0 <= i < |pages| ==> IsYes(replies[i])
    ensures |pages| > 0 ==> ChunkSize * (|pages| - 1) < |rows|
    ensures forall i :: 0 <= i < |pages| ==> pages[i] == rows[ChunkSize * i .. Min(ChunkSize * i + ChunkSize, |rows|)]
    ensures Flatten(pages) == rows[..Min(ChunkSize * |pages|, |rows|)]
    ensures stop == AllShown <==> ChunkSize * |pages| >= |rows|
    ensures stop == Declined ==> |pages| < |replies| && !IsYes(replies[|pages|])
    ensures stop == OutOfReplies ==> |pages| == |replies|
  {
    var startIdx := 0;
    var asked := 0;
    pages := [];
    while startIdx < |rows|
      invariant asked == |pages| <= |replies|
      invariant startIdx == Min(ChunkSize * |pages|, |rows|)
      invariant forall i :: 0 <= i < |pages| ==> IsYes(replies[i])
      invariant |pages| > 0 ==> ChunkSize * (|pages| - 1) < |rows|
      invariant forall i :: 0 <= i < |pages| ==> pages[i] == rows[ChunkSize * i .. Min(ChunkSize * i + ChunkSize, |rows|)]
      invariant Flatten(pages) == rows[..startIdx]
      decreases |rows| - startIdx
    {
      if asked == |replies| {
        return pages, OutOfReplies;
      }
      var showData := replies[asked];
      asked := asked + 1;
      if !IsYes(showData) {
        return pages, Declined;
      }
      var endIdx := Min(startIdx + ChunkSize, |rows|);
      var page := rows[startIdx..endIdx];
      assert Flatten(pages + [page]) == Flatten(pages) + page;
      assert rows[..startIdx] + page == rows[..endIdx];
      pages := pages + [page];
      startIdx := endIdx;
    }
    stop := AllShown;
  }
}
