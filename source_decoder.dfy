/**
 * New_Source_Decoder.py: the recovery filter that cuts hex-encoded hits
 * out of the strings a source run logs, and the per-line pipeline around
 * it (drop `ffff` padding, prepend the fragment carried over from the
 * previous line, split on `bcbc` idle bytes, carry a short last piece
 * forward, filter, decode, number the hits of the line).
 */
module SourceDecoder {
  import opened Wrappers
  import Text
  import Bits

  /** The two chip versions the script knows (`-V 3` and `-V 4`). */
  datatype Version = AstroPix3 | AstroPix4

  /** The hex header that opens a hit: `e0` for AstroPix4, `20` for AstroPix3. */
  function HeaderString(v: Version): string
  {
    if v == AstroPix4 then "e0" else "20"
  }

  function BytesPerHit(v: Version): nat
  {
    if v == AstroPix4 then 8 else 5
  }

  /** Two hex characters per byte: 16 for AstroPix4, 10 for AstroPix3. */
  function CharactersPerHit(v: Version): nat
  {
    2 * BytesPerHit(v)
  }

  /** Longer strings are the configuration noise at the top of a log, and are ignored. */
  const MAX_FILTERED_LENGTH := 1000

  /** A candidate hit: exactly one hit's worth of characters, opening with the header. */
  predicate IsHit(h: string, v: Version)
  {
    |h| == CharactersPerHit(v) && h[..2] == HeaderString(v)
  }

  /**
   * `Filter_Function`: the hits recovered from one `bcbc`-free string,
   * the last one first.
   */
  function Filter(s: string, v: Version): (r: seq<string>)
    ensures forall k :: 0 <= k < |r| ==> IsHit(r[k], v)
    ensures (|s| < CharactersPerHit(v) || |s| > MAX_FILTERED_LENGTH) ==> r == []
  {
    FilterPrefix(s, |s|, v)
  }

  /**
   * `Filter_Function` applied to `s[..end]`; each recursive call of the
   * script works on a prefix of its argument, so a prefix is named here by
   * where it ends. A hit at the end is kept and the rest filtered again; a
   * single `bc` at the end is dropped and the rest filtered again;
   * anything else at the end gives up on the whole string.
   */
  function FilterPrefix(s: string, end: nat, v: Version): (r: seq<string>)
    requires end <= |s|
    ensures forall k :: 0 <= k < |r| ==> IsHit(r[k], v)
    ensures (end < CharactersPerHit(v) || end > MAX_FILTERED_LENGTH) ==> r == []
    decreases end
  {
    var n := CharactersPerHit(v);
    if !(n <= end <= MAX_FILTERED_LENGTH) then []
    else if end == n && s[0..2] == HeaderString(v) then [s[..end]]
    else if s[end - n..end - n + 2] == HeaderString(v) then
      assert s[end - n..end][..2] == s[end - n..end - n + 2];
      [s[end - n..end]] + FilterPrefix(s, end - n, v)
    else if s[end - 2..end] == "bc" then FilterPrefix(s, end - 2, v)
    else []
  }

  /** What `FilterPrefix` recovers depends on the prefix only. */
  lemma {:induction false} FilterPrefixLocal(s: string, t: string, end: nat, v: Version)
    requires end <= |s| && end <= |t| && s[..end] == t[..end]
    ensures FilterPrefix(s, end, v) == FilterPrefix(t, end, v)
    decreases end
  {
    var n := CharactersPerHit(v);
    if n <= end <= MAX_FILTERED_LENGTH {
      assert s[0..2] == t[0..2] && s[end - n..end] == t[end - n..end] && s[end - n..end - n + 2] == t[end - n..end - n + 2];
      assert s[end - 2..end] == t[end - 2..end];
      assert s[..end - n] == t[..end - n] && s[..end - 2] == t[..end - 2];
      FilterPrefixLocal(s, t, end - n, v);
      FilterPrefixLocal(s, t, end - 2, v);
    }
  }

  /**
   * A string that ends in neither a hit header (one hit's length from the
   * end) nor `bc` gives nothing, whatever hits come before.
   */
  lemma FilterGivesUp(s: string, v: Version)
    requires CharactersPerHit(v) <= |s|
    requires s[|s| - CharactersPerHit(v)..|s| - CharactersPerHit(v) + 2] != HeaderString(v)
    requires !Text.EndsWith(s, "bc")
    ensures Filter(s, v) == []
  {
    assert s[|s| - 2..|s|] != "bc";
    if |s| == CharactersPerHit(v) {
      assert s[0..2] == s[|s| - CharactersPerHit(v)..|s| - CharactersPerHit(v) + 2];
    }
  }

  /** A valid hit followed by two characters that are neither `bc` nor a header is lost. */
  lemma GarbageAfterHitLosesIt()
    ensures Filter("e05042030620d701" + "00", AstroPix4) == []
  {
    var s := "e05042030620d701" + "00";
    assert s[2..4] == "50" && s[16..] == "00";
    FilterGivesUp(s, AstroPix4);
  }

  /**
   * Hits written back to back, with no idle byte between them, are all
   * recovered, from the last to the first.
   */
  lemma {:induction false} BackToBackHits(hits: seq<string>, v: Version)
    requires |hits| > 0 && forall k :: 0 <= k < |hits| ==> IsHit(hits[k], v)
    requires |Text.Concat(hits)| <= MAX_FILTERED_LENGTH
    ensures Filter(Text.Concat(hits), v) == Bits.Reverse(hits)
    decreases |hits|
  {
    var n := CharactersPerHit(v);
    var last := hits[|hits| - 1];
    var init := hits[..|hits| - 1];
    assert hits == init + [last];
    Text.ConcatAppend(init, [last]);
    assert Text.Concat([last]) == last;
    var a := Text.Concat(init);
    var s := Text.Concat(hits);
    assert s == a + last;
    ReverseSnoc(init, last);
    if init == [] {
      assert s == last && s[0..2] == last[..2] && s[..|s|] == s;
    } else {
      assert s[|s| - n..|s|] == last;
      assert s[|s| - n..|s| - n + 2] == last[..2];
      ConcatNonEmpty(init, v);
      assert s[..|a|] == a[..|a|];
      FilterPrefixLocal(s, a, |a|, v);
      BackToBackHits(init, v);
    }
  }

  lemma ConcatNonEmpty(hits: seq<string>, v: Version)
    requires hits != [] && forall k :: 0 <= k < |hits| ==> IsHit(hits[k], v)
    ensures |Text.Concat(hits)| >= CharactersPerHit(v)
  {
  }

  lemma {:induction false} ReverseSnoc<T>(s: seq<T>, x: T)
    ensures Bits.Reverse(s + [x]) == [x] + Bits.Reverse(s)
  {
    if s != [] {
      assert (s + [x])[1..] == s[1..] + [x];
      ReverseSnoc(s[1..], x);
    }
  }

  /**
   * `hits` are pieces of `s[..end]`, each `n` long, found at the positions
   * `at`, each one ending at or before the start of the one before it.
   */
  predicate Located(s: string, end: nat, n: nat, hits: seq<string>, at: seq<nat>)
    requires end <= |s|
  {
    && |at| == |hits|
    && (forall k :: 0 <= k < |at| ==> at[k] + n <= end && s[at[k]..at[k] + n] == hits[k])
    && (forall k :: 0 < k < |at| ==> at[k] + n <= at[k - 1])
  }

  lemma LocatedCons(s: string, end: nat, n: nat, hits: seq<string>, at: seq<nat>)
    requires n <= end <= |s| && Located(s, end - n, n, hits, at)
    ensures Located(s, end, n, [s[end - n..end]] + hits, [end - n] + at)
  {
    var hits', at' := [s[end - n..end]] + hits, [end - n] + at;
    forall k | 0 < k < |at'|
      ensures at'[k] + n <= end && s[at'[k]..at'[k] + n] == hits'[k]
    {
      assert at'[k] == at[k - 1] && hits'[k] == hits[k - 1];
    }
  }

  lemma LocatedWithin(s: string, end: nat, end': nat, n: nat, hits: seq<string>, at: seq<nat>)
    requires end <= end' <= |s| && Located(s, end, n, hits, at)
    ensures Located(s, end', n, hits, at)
  {
  }

  /**
   * Every recovered hit is a piece of the filtered string, and the pieces
   * do not overlap: each one ends at or before the start of the one found
   * before it.
   */
  lemma {:induction false} FilterSubstrings(s: string, end: nat, v: Version) returns (at: seq<nat>)
    requires end <= |s|
    ensures Located(s, end, CharactersPerHit(v), FilterPrefix(s, end, v), at)
    decreases end
  {
    var n := CharactersPerHit(v);
    if !(n <= end <= MAX_FILTERED_LENGTH) {
      at := [];
    } else if end == n && s[0..2] == HeaderString(v) {
      at := [0];
    } else if s[end - n..end - n + 2] == HeaderString(v) {
      var rest := FilterSubstrings(s, end - n, v);
      LocatedCons(s, end, n, FilterPrefix(s, end - n, v), rest);
      at := [end - n] + rest;
    } else if s[end - 2..end] == "bc" {
      at := FilterSubstrings(s, end - 2, v);
      LocatedWithin(s, end - 2, end, n, FilterPrefix(s, end - 2, v), at);
    } else {
      at := [];
    }
  }

  // ---------------------------------------------------------------------
  // One line of the log

  /** Only a line that opens with a digit holds data; the configuration lines at the top do not. */
  predicate IsDataLine(line: string)
  {
    |line| > 0 && '0' <= line[0] <= '9'
  }

  /** The hex text of a data line: what follows its last tab, less the two characters at each end. */
  function Payload(line: string): string
  {
    var fields := Text.Split(line, "\t");
    Text.Trim(fields[|fields| - 1], 2, 2)
  }

  /** The payload with its `ffff` padding cut out: every `ffff` the scan finds is removed. */
  function WithoutPadding(payload: string): (r: string)
    ensures r == Text.Replace(payload, "ffff", "")
  {
    Text.ConcatSplitIsReplace(payload, "ffff");
    Text.Concat(Text.DropEmpty(Text.Split(payload, "ffff")))
  }

  /** The fragment kept from the previous line in front of this line's text. */
  function WithCarry(carry: Option<string>, text: string): string
  {
    if carry.Some? then carry.value + text else text
  }

  function CarryText(carry: Option<string>): string
  {
    if carry.Some? then carry.value else ""
  }

  /** What a data line is cut into: the pieces to filter now, and the fragment to carry to the next line. */
  datatype Cut = Cut(pieces: seq<string>, carry: Option<string>)

  /** The non-empty `bcbc`-separated pieces of a line's text. */
  function IdlePieces(content: string): (r: seq<string>)
    ensures forall k :: 0 <= k < |r| ==> |r[k]| > 0
    ensures Text.Concat(r) == Text.Replace(content, "bcbc", "")
  {
    Text.ConcatSplitIsReplace(content, "bcbc");
    Text.DropEmpty(Text.Split(content, "bcbc"))
  }

  /**
   * Splitting the text (carry in front) on `bcbc`: when there is more than
   * one piece and the last is shorter than a hit, that last piece is held
   * back as the new carry; otherwise nothing is carried.
   */
  function CutLine(content: string, v: Version): (r: Cut)
    ensures Text.Concat(r.pieces) + CarryText(r.carry) == Text.Replace(content, "bcbc", "")
    ensures forall k :: 0 <= k < |r.pieces| ==> |r.pieces[k]| > 0
    ensures r.carry.Some? ==> 0 < |r.carry.value| < CharactersPerHit(v) && r.pieces != []
    ensures r.carry.None? && |r.pieces| > 1 ==> |r.pieces[|r.pieces| - 1]| >= CharactersPerHit(v)
  {
    var all := IdlePieces(content);
    if |all| > 1 && |all[|all| - 1]| < CharactersPerHit(v) then
      var kept := all[..|all| - 1];
      assert all == kept + [all[|all| - 1]];
      Text.ConcatAppend(kept, [all[|all| - 1]]);
      assert Text.Concat([all[|all| - 1]]) == all[|all| - 1];
      Cut(kept, Some(all[|all| - 1]))
    else
      assert Text.Concat(all) + [] == Text.Concat(all);
      Cut(all, None)
  }

  /** The hits recovered from the pieces of a line, piece by piece, each piece's in `Filter` order. */
  function FilteredHits(pieces: seq<string>, v: Version): (r: seq<string>)
    ensures forall k :: 0 <= k < |r| ==> IsHit(r[k], v)
  {
    if pieces == [] then []
    else FilteredHits(pieces[..|pieces| - 1], v) + Filter(pieces[|pieces| - 1], v)
  }

  /** Filtering every piece of a line, in order. */
  method FilterPieces(pieces: seq<string>, v: Version) returns (hits: seq<string>)
    ensures hits == FilteredHits(pieces, v)
    ensures forall k :: 0 <= k < |hits| ==> IsHit(hits[k], v)
  {
    hits := [];
    var j := 0;
    while j < |pieces|
      invariant 0 <= j <= |pieces|
      invariant hits == FilteredHits(pieces[..j], v)
    {
      assert pieces[..j + 1][..j] == pieces[..j];
      hits := hits + Filter(pieces[j], v);
      j := j + 1;
    }
    assert pieces[..|pieces|] == pieces;
  }

  /** A decoded hit with its `dec_ord`: its position among the hits decoded from the same line. */
  datatype Row<H> = Row(decOrd: nat, hit: H)

  /**
   * The hits decoded from the recovered hex strings of a line, in order;
   * `decode` stands for the hit decoding of the `decode_copy` module, which
   * also receives the line counter.
   */
  function DecodedHits<H>(hexHits: seq<string>, lineNumber: nat, decode: (string, nat) -> seq<H>): seq<H>
  {
    if hexHits == [] then []
    else DecodedHits(hexHits[..|hexHits| - 1], lineNumber, decode) + decode(hexHits[|hexHits| - 1], lineNumber)
  }

  /** The rows of a line: its decoded hits numbered from 0. */
  function LineRows<H>(hits: seq<H>): (r: seq<Row<H>>)
    ensures |r| == |hits|
  {
    seq(|hits|, k requires 0 <= k < |hits| => Row(k, hits[k]))
  }

  /**
   * Decoding the recovered hits of one line: `dec_ord` starts at 0 and
   * goes up by one for every decoded hit, so each row carries its
   * position among the line's decoded hits.
   */
  method DecodeLine<H>(hexHits: seq<string>, lineNumber: nat, decode: (string, nat) -> seq<H>) returns (rows: seq<Row<H>>)
    ensures |rows| == |DecodedHits(hexHits, lineNumber, decode)|
    ensures forall k :: 0 <= k < |rows| ==> rows[k] == Row(k, DecodedHits(hexHits, lineNumber, decode)[k])
  {
    rows := [];
    var decOrd := 0;
    var j := 0;
    while j < |hexHits|
      invariant 0 <= j <= |hexHits|
      invariant decOrd == |rows|
      invariant rows == LineRows(DecodedHits(hexHits[..j], lineNumber, decode))
    {
      assert hexHits[..j + 1][..j] == hexHits[..j];
      var decoded := decode(hexHits[j], lineNumber);
      ghost var before := DecodedHits(hexHits[..j], lineNumber, decode);
      var m := 0;
      while m < |decoded|
        invariant 0 <= m <= |decoded|
        invariant decOrd == |rows|
        invariant rows == LineRows(before + decoded[..m])
      {
        assert (before + decoded[..m + 1])[..|rows|] == before + decoded[..m];
        rows := rows + [Row(decOrd, decoded[m])];
        decOrd := decOrd + 1;
        m := m + 1;
      }
      assert decoded[..m] == decoded;
      j := j + 1;
    }
    assert hexHits[..|hexHits|] == hexHits;
  }

  // ---------------------------------------------------------------------
  // The whole log

  /** What the loop over the log's lines carries: the fragment, the data-line counter and the rows written. */
  datatype LogState<H> = LogState(carry: Option<string>, lineCounter: nat, rows: seq<Row<H>>)

  /** One line of the log: a data line is padded out, cut, filtered, decoded and counted; any other line changes nothing. */
  function Advance<H>(state: LogState<H>, line: string, v: Version, decode: (string, nat) -> seq<H>): LogState<H>
  {
    if !IsDataLine(line) then state
    else
      var cut := CutLine(WithCarry(state.carry, WithoutPadding(Payload(line))), v);
      var hits := DecodedHits(FilteredHits(cut.pieces, v), state.lineCounter, decode);
      LogState(cut.carry, state.lineCounter + 1, state.rows + LineRows(hits))
  }

  /** The state after the lines of a log, from no carry, counter 0 and no rows. */
  function Run<H>(lines: seq<string>, v: Version, decode: (string, nat) -> seq<H>): LogState<H>
  {
    if lines == [] then LogState(None, 0, [])
    else Advance(Run(lines[..|lines| - 1], v, decode), lines[|lines| - 1], v, decode)
  }

  /** `main`'s loop over the lines of a log, from the data lines to the rows of the output file. */
  method DecodeLog<H>(lines: seq<string>, v: Version, decode: (string, nat) -> seq<H>)
    returns (carry: Option<string>, lineCounter: nat, rows: seq<Row<H>>)
    ensures LogState(carry, lineCounter, rows) == Run(lines, v, decode)
  {
    carry, lineCounter, rows := None, 0, [];
    var i := 0;
    while i < |lines|
      invariant 0 <= i <= |lines|
      invariant LogState(carry, lineCounter, rows) == Run(lines[..i], v, decode)
    {
      assert lines[..i + 1][..i] == lines[..i];
      carry, lineCounter, rows := DecodeLogLine(carry, lineCounter, rows, lines[i], v, decode);
      i := i + 1;
    }
    assert lines[..|lines|] == lines;
  }

  /** The body of `main`'s loop, for one line. */
  method DecodeLogLine<H>(carry: Option<string>, lineCounter: nat, rows: seq<Row<H>>, line: string, v: Version,
                          decode: (string, nat) -> seq<H>)
    returns (carry': Option<string>, lineCounter': nat, rows': seq<Row<H>>)
    ensures LogState(carry', lineCounter', rows') == Advance(LogState(carry, lineCounter, rows), line, v, decode)
  {
    carry', lineCounter', rows' := carry, lineCounter, rows;
    if IsDataLine(line) {
      var noPadding := WithoutPadding(Payload(line));
      var cut := CutLine(WithCarry(carry, noPadding), v);
      carry' := cut.carry;
      var hexHits := FilterPieces(cut.pieces, v);
      var lineRows := DecodeLine(hexHits, lineCounter, decode);
      assert lineRows == LineRows(DecodedHits(hexHits, lineCounter, decode));
      rows' := rows + lineRows;
      lineCounter' := lineCounter + 1;
    }
  }

  function DataLines(lines: seq<string>): nat
  {
    if lines == [] then 0
    else DataLines(lines[..|lines| - 1]) + (if IsDataLine(lines[|lines| - 1]) then 1 else 0)
  }

  /** The line counter counts the data lines, and no other. */
  lemma {:induction false} CounterCountsDataLines<H>(lines: seq<string>, v: Version, decode: (string, nat) -> seq<H>)
    ensures Run(lines, v, decode).lineCounter == DataLines(lines)
  {
    if lines != [] {
      CounterCountsDataLines(lines[..|lines| - 1], v, decode);
    }
  }

  /** Lines that hold no data, wherever they come, change nothing. */
  lemma {:induction false} OtherLinesIgnored<H>(lines: seq<string>, others: seq<string>, v: Version, decode: (string, nat) -> seq<H>)
    requires forall k :: 0 <= k < |others| ==> !IsDataLine(others[k])
    ensures Run(lines + others, v, decode) == Run(lines, v, decode)
    decreases |others|
  {
    if others == [] {
      assert lines + others == lines;
    } else {
      var init := others[..|others| - 1];
      assert (lines + others)[..|lines + others| - 1] == lines + init;
      OtherLinesIgnored(lines, init, v, decode);
    }
  }

  /** The fragment carried between lines is never empty and always shorter than a hit. */
  lemma {:induction false} CarryShort<H>(lines: seq<string>, v: Version, decode: (string, nat) -> seq<H>)
    ensures var c := Run(lines, v, decode).carry; c.Some? ==> 0 < |c.value| < CharactersPerHit(v)
  {
    if lines != [] {
      CarryShort(lines[..|lines| - 1], v, decode);
    }
  }

  /** Every row of the output holds a hit decoded from a hit of some line, and the rows of each line are numbered from 0. */
  lemma {:induction false} RowsNumberedPerLine<H>(lines: seq<string>, line: string, v: Version, decode: (string, nat) -> seq<H>)
    requires IsDataLine(line)
    ensures var before := Run(lines, v, decode); var after := Run(lines + [line], v, decode);
      && after.lineCounter == before.lineCounter + 1
      && |before.rows| <= |after.rows| && after.rows[..|before.rows|] == before.rows
      && forall k :: |before.rows| <= k < |after.rows| ==> after.rows[k].decOrd == k - |before.rows|
  {
    assert (lines + [line])[..|lines + [line]| - 1] == lines;
  }
}
