/** `strtok` (kernel/std/stdlib.cpp): it cuts a string in place, remembering between calls where it stopped. */
module Strtok {

  /** A plain `char` is signed; strings end at the first zero. */
  type Char = c: int | -128 <= c < 128

  // ---------------------------------------------------------------- what one call finds

  /** How many characters of t come before the first delimiter. */
  function Plain(t: seq<Char>, delims: seq<Char>): (n: nat)
    ensures n <= |t|
  {
    if t == [] || t[0] in delims then 0 else 1 + Plain(t[1..], delims)
  }

  /** How many delimiters t starts with. */
  function Span(t: seq<Char>, delims: seq<Char>): (n: nat)
    ensures n <= |t|
  {
    if t == [] || t[0] !in delims then 0 else 1 + Span(t[1..], delims)
  }

  /** A call on t takes the token t[..Plain] and the delimiters after it. */
  function Taken(t: seq<Char>, delims: seq<Char>): (n: nat)
    ensures Plain(t, delims) <= n <= |t| && (t != [] ==> n > 0)
  {
    Plain(t, delims) + Span(t[Plain(t, delims)..], delims)
  }

  lemma {:induction false} PlainStep(t: seq<Char>, delims: seq<Char>, k: nat)
    requires k < |t| && k <= Plain(t, delims)
    ensures k == Plain(t, delims) <==> t[k] in delims
  {
    if k > 0 { PlainStep(t[1..], delims, k - 1); }
  }

  lemma {:induction false} SpanStep(t: seq<Char>, delims: seq<Char>, k: nat)
    requires k < |t| && k <= Span(t, delims)
    ensures k == Span(t, delims) <==> t[k] !in delims
  {
    if k > 0 { SpanStep(t[1..], delims, k - 1); }
  }

  /** The C string at p: the characters before the next zero. */
  function TextAt(mem: seq<Char>, p: int): seq<Char>
    requires 0 <= p <= |mem|
  {
    mem[p..p + Plain(mem[p..], [0])]
  }

  /** There is such a zero. */
  predicate IsString(mem: seq<Char>, p: int) {
    0 <= p <= |mem| && p + |TextAt(mem, p)| < |mem|
  }

  /** The same, spelled out. */
  predicate Between(mem: seq<Char>, p: int, end: int) {
    0 <= p <= end < |mem| && mem[end] == 0 && forall k :: p <= k < end ==> mem[k] != 0
  }

  lemma {:induction false} BetweenIsText(mem: seq<Char>, p: int, end: int)
    requires 0 <= p <= end < |mem|
    ensures Between(mem, p, end) <==> IsString(mem, p) && TextAt(mem, p) == mem[p..end]
    decreases end - p
  {
    PlainMeans(mem[p..], [0]);
    var n := Plain(mem[p..], [0]);
    if Between(mem, p, end) {
      assert mem[p..][end - p] == 0;
      assert n < |mem| - p ==> mem[p..][n] == mem[p + n];
    }
    if IsString(mem, p) && TextAt(mem, p) == mem[p..end] {
      assert n == |TextAt(mem, p)| == end - p;
      assert mem[p..][n] == mem[end];
      forall k | p <= k < end ensures mem[k] != 0 { assert mem[p..][k - p] == mem[k]; }
    }
  }

  lemma {:induction false} SpanMeans(t: seq<Char>, delims: seq<Char>)
    ensures var n := Span(t, delims);
            && (forall k :: 0 <= k < n ==> t[k] in delims) && (n < |t| ==> t[n] !in delims)
  {
    if t != [] && t[0] in delims { SpanMeans(t[1..], delims); }
  }

  lemma {:induction false} PlainMeans(t: seq<Char>, delims: seq<Char>)
    ensures var n := Plain(t, delims);
            && (forall k :: 0 <= k < n ==> t[k] !in delims) && (n < |t| ==> t[n] in delims)
  {
    if t != [] && t[0] !in delims { PlainMeans(t[1..], delims); }
  }

  lemma StringMeans(mem: seq<Char>, p: int)
    requires IsString(mem, p)
    ensures var end := p + |TextAt(mem, p)|; Between(mem, p, end) && mem[p..end] == TextAt(mem, p)
  {
    BetweenIsText(mem, p, p + |TextAt(mem, p)|);
  }

  /** What `strspn` finds on the way: nothing before the token's end, there the delimiters to be taken. */
  lemma Here(mem: seq<Char>, start: int, p: int, end: int, delims: seq<Char>)
    requires Between(mem, start, end) && start <= p < end
    requires p <= start + Plain(mem[start..end], delims)
    ensures IsString(mem, p) && TextAt(mem, p) == mem[p..end]
    ensures var i, t := Span(TextAt(mem, p), delims), mem[start..end];
            if p < start + Plain(t, delims) then i == 0 else i > 0 && p + i == start + Taken(t, delims)
  {
    var t := mem[start..end];
    BetweenIsText(mem, p, end);
    PlainStep(t, delims, p - start);
    SpanStep(mem[p..end], delims, 0);
    assert t[p - start..] == mem[p..end];
  }

  /** The memory with the characters from a up to b zeroed. */
  ghost predicate Zeroed(before: seq<Char>, after: seq<Char>, a: int, b: int) {
    |after| == |before| && forall k :: 0 <= k < |before| ==> after[k] == if a <= k < b then 0 else before[k]
  }

  lemma Bounds(mem: seq<Char>, p: int, end: int)
    requires Between(mem, p, end)
    ensures 0 <= p <= end < |mem|
  {}

  /** Before its end a string has no zero. */
  lemma Inside(mem: seq<Char>, start: int, p: int, end: int)
    requires Between(mem, start, end) && start <= p <= end
    ensures mem[p] == 0 <==> p == end
  {}

  lemma NoZeros(mem: seq<Char>, a: int)
    ensures Zeroed(mem, mem, a, a)
  {}

  lemma ZeroOne(was: seq<Char>, now: seq<Char>, a: int, b: int)
    requires Zeroed(was, now, a, b) && 0 <= a <= b < |was|
    ensures |now| == |was| && Zeroed(was, now[b := 0], a, b + 1)
  {}

  /** Where the loop stops once delimiters were found: on the last of them, or at the end. */
  lemma Stops(was: seq<Char>, now: seq<Char>, start: int, end: int, cut: int, last: int)
    requires Between(was, start, end) && Zeroed(was, now, cut, last) && 0 <= cut < last <= end
    ensures |now| == |was| && now[if last < end then last - 1 else end] == 0
  {}

  /** Between calls `nxt` rests on a zero, and `size` counts from there to the end of the string. */
  ghost predicate Resting(mem: seq<Char>, nxt: int, size: int) {
    && 0 <= nxt && 0 <= size != 1 && nxt + size < |mem|
    && mem[nxt] == 0 && mem[nxt + size] == 0 && forall k :: nxt < k < nxt + size ==> mem[k] != 0
  }

  /** What is still to be cut. */
  ghost function Remaining(mem: seq<Char>, nxt: int, size: int): seq<Char>
    requires Resting(mem, nxt, size)
  {
    if size == 0 then [] else mem[nxt + 1..nxt + size]
  }

  /** What a call on the string t at `at` leaves: zeros over the delimiters after the token, which therefore
      ends at a zero, and what follows them still to be cut. */
  ghost predicate Cut(before: seq<Char>, now: seq<Char>, nxt: int, size: int, at: int, t: seq<Char>, delims: seq<Char>) {
    var n, taken := Plain(t, delims), Taken(t, delims);
    && Resting(now, nxt, size)
    && at >= 0 && at + |t| < |now|
    && Zeroed(before, now, at + n, at + taken) && now[at + n] == 0
    && nxt + size == at + |t| && Remaining(now, nxt, size) == t[taken..]
    && (size > 0 ==> nxt + 1 == at + taken)
  }

  /** What the loop leaves, with and without delimiters found. */
  lemma Ends(was: seq<Char>, now: seq<Char>, start: int, end: int, delims: seq<Char>, p: int, done: bool)
    requires Between(was, start, end) && |now| == |was|
    requires var t := was[start..end]; var cut, last := start + Plain(t, delims), start + Taken(t, delims);
             if done then cut < last <= end && Zeroed(was, now, cut, last) && p == (if last < end then last - 1 else end)
             else now == was && start <= p <= cut && was[p] == 0
    ensures p <= end && Cut(was, now, p, end - p, start, was[start..end], delims)
  {
    hide Plain, Span, Taken;
    var t := was[start..end];
    if done {
      var taken := Taken(t, delims);
      Suffix(was, now, start, end, taken, start + Plain(t, delims), start + taken);
      if p == end { assert taken == |t|; }
    } else {
      assert p == end == start + Plain(t, delims);
      NoZeros(was, end);
    }
  }

  /** What follows the zeros is the text's own end. */
  lemma Suffix(was: seq<Char>, now: seq<Char>, start: int, end: int, taken: int, a: int, b: int)
    requires 0 <= start <= end <= |was| && 0 <= taken <= end - start && b == start + taken && Zeroed(was, now, a, b)
    ensures now[b..end] == was[start..end][taken..]
  {
    forall k | b <= k < end ensures now[k] == was[start..end][k - start] {}
  }

  // ---------------------------------------------------------------- what repeated calls find

  /** A token: where it starts in the string, and its length. */
  datatype Piece = Piece(start: nat, len: nat)

  /** The tokens of a call at `at`, and of NULL calls until one returns NULL. */
  function Pieces(s: seq<Char>, at: nat, delims: seq<Char>): seq<Piece>
    requires at <= |s|
    decreases |s| - at
  {
    var t := s[at..];
    var next := at + Taken(t, delims);
    [Piece(at, Plain(t, delims))] + if next == |s| then [] else Pieces(s, next, delims)
  }

  /** The maximal runs without a delimiter, at `at` or later. */
  ghost predicate IsRun(s: seq<Char>, delims: seq<Char>, at: int, p: Piece) {
    var end := p.start + p.len;
    && at <= p.start < end <= |s| && (forall k :: p.start <= k < end ==> s[k] !in delims)
    && (p.start == 0 || s[p.start - 1] in delims) && (end == |s| || s[end] in delims)
  }

  ghost predicate InOrder(pieces: seq<Piece>) {
    forall i, j :: 0 <= i < j < |pieces| ==> pieces[i].start + pieces[i].len < pieces[j].start
  }

  /** Every run, and nothing else, in order: this determines the sequence. */
  ghost predicate AreRuns(s: seq<Char>, delims: seq<Char>, at: int, pieces: seq<Piece>) {
    InOrder(pieces) && forall p: Piece :: p in pieces <==> IsRun(s, delims, at, p)
  }

  /** From the start of a run on, the tokens are the runs. */
  lemma {:induction false} PiecesAreRuns(s: seq<Char>, at: nat, delims: seq<Char>)
    requires at < |s| && s[at] !in delims && (at == 0 || s[at - 1] in delims)
    ensures AreRuns(s, delims, at, Pieces(s, at, delims))
    decreases |s| - at
  {
    hide Plain, Span, Taken, Pieces, IsRun, AreRuns;
    var t := s[at..];
    var cut, next := at + Plain(t, delims), at + Taken(t, delims);
    FirstPiece(s, at, delims);
    FirstAndRest(s, at, delims);
    var rest := if next == |s| then [] else Pieces(s, next, delims);
    if next < |s| { PiecesAreRuns(s, next, delims); } else { NoneAtEnd(s, delims); }
    Prepend(s, delims, at, cut, next, rest);
  }

  lemma FirstAndRest(s: seq<Char>, at: nat, delims: seq<Char>)
    requires at <= |s|
    ensures var next := at + Taken(s[at..], delims);
            Pieces(s, at, delims)
            == [Piece(at, Plain(s[at..], delims))] + if next == |s| then [] else Pieces(s, next, delims)
  {
    hide Plain, Taken;
  }

  /** A run and the runs after its delimiters. */
  lemma Prepend(s: seq<Char>, delims: seq<Char>, at: nat, cut: nat, next: nat, rest: seq<Piece>)
    requires at < cut <= next <= |s| && IsRun(s, delims, at, Piece(at, cut - at))
    requires forall k :: cut <= k < next ==> s[k] in delims
    requires (cut < |s| ==> cut < next) && AreRuns(s, delims, next, rest)
    ensures AreRuns(s, delims, at, [Piece(at, cut - at)] + rest)
  {
    hide IsRun;
    forall p: Piece ensures p in [Piece(at, cut - at)] + rest <==> IsRun(s, delims, at, p) {
      FirstOrLater(s, delims, at, cut, next, p);
    }
    forall j | 0 <= j < |rest| ensures cut < rest[j].start {
      assert rest[j] in rest;
      StartsLater(s, delims, next, rest[j]);
    }
  }

  lemma StartsLater(s: seq<Char>, delims: seq<Char>, at: nat, p: Piece)
    requires IsRun(s, delims, at, p)
    ensures at <= p.start < |s|
  {}

  lemma NoneAtEnd(s: seq<Char>, delims: seq<Char>)
    ensures AreRuns(s, delims, |s|, [])
  {}

  /** The first token at the start of a run, and the delimiters after it. */
  lemma FirstPiece(s: seq<Char>, at: nat, delims: seq<Char>)
    requires at < |s| && s[at] !in delims && (at == 0 || s[at - 1] in delims)
    ensures var cut, next := at + Plain(s[at..], delims), at + Taken(s[at..], delims);
            && at < cut <= next <= |s| && IsRun(s, delims, at, Piece(at, cut - at))
            && (forall k :: cut <= k < next ==> s[k] in delims)
            && (cut < |s| ==> cut < next)
            && (next < |s| ==> s[next - 1] in delims && s[next] !in delims)
  {
    hide Plain, Span, Taken;
    PlainAt(s, at, delims);
    TakenAt(s, at, delims);
    SpanAt(s, at + Plain(s[at..], delims), delims);
  }

  lemma TakenAt(s: seq<Char>, at: nat, delims: seq<Char>)
    requires at <= |s|
    ensures var n := Plain(s[at..], delims); Taken(s[at..], delims) == n + Span(s[at + n..], delims)
  {
    hide Plain, Span;
    assert s[at..][Plain(s[at..], delims)..] == s[at + Plain(s[at..], delims)..];
  }

  lemma PlainAt(s: seq<Char>, at: nat, delims: seq<Char>)
    requires at <= |s|
    ensures var cut := at + Plain(s[at..], delims);
            (forall k :: at <= k < cut ==> s[k] !in delims) && (cut < |s| ==> s[cut] in delims)
  {
    var t := s[at..];
    PlainMeans(t, delims);
    forall k | at <= k < at + Plain(t, delims) ensures s[k] !in delims { assert s[k] == t[k - at]; }
  }

  lemma SpanAt(s: seq<Char>, at: nat, delims: seq<Char>)
    requires at <= |s|
    ensures var next := at + Span(s[at..], delims);
            (forall k :: at <= k < next ==> s[k] in delims) && (next < |s| ==> s[next] !in delims)
  {
    var t := s[at..];
    SpanMeans(t, delims);
    forall k | at <= k < at + Span(t, delims) ensures s[k] in delims { assert s[k] == t[k - at]; }
  }

  /** A run at or after a run is that one, or starts after its delimiters. */
  lemma FirstOrLater(s: seq<Char>, delims: seq<Char>, at: nat, cut: nat, next: nat, p: Piece)
    requires at < cut <= next <= |s| && IsRun(s, delims, at, Piece(at, cut - at))
    requires forall k :: cut <= k < next ==> s[k] in delims
    requires cut < |s| ==> cut < next
    ensures IsRun(s, delims, at, p) <==> p == Piece(at, cut - at) || IsRun(s, delims, next, p)
  {
    var end := p.start + p.len;
    if IsRun(s, delims, at, p) {
      if p.start == at {
        assert cut < |s| ==> s[cut] in delims;
        assert end < |s| ==> s[end] in delims;
      } else {
        assert s[p.start - 1] in delims && s[p.start] !in delims;
      }
    }
  }

  /** Delimiters in front hold no run. */
  lemma SkipDelims(s: seq<Char>, delims: seq<Char>, next: nat, p: Piece)
    requires next <= |s| && forall k :: 0 <= k < next ==> s[k] in delims
    ensures IsRun(s, delims, 0, p) <==> IsRun(s, delims, next, p)
  {
    if IsRun(s, delims, 0, p) { assert s[p.start] !in delims; }
  }

  /** What a string of tokens is for: all calls together find the maximal runs without a delimiter, in order,
      after one empty token when the string is empty or starts with a delimiter. */
  lemma TokensAreRuns(s: seq<Char>, delims: seq<Char>)
    ensures var pieces := Pieces(s, 0, delims);
            if s == [] || s[0] in delims then pieces[0] == Piece(0, 0) && AreRuns(s, delims, 0, pieces[1..])
            else AreRuns(s, delims, 0, pieces)
  {
    if s != [] && s[0] !in delims {
      PiecesAreRuns(s, 0, delims);
    } else {
      assert s[0..] == s;
      SpanMeans(s, delims);
      var next := Span(s, delims);
      assert Taken(s, delims) == next;
      if next < |s| { PiecesAreRuns(s, next, delims); }
      forall p: Piece ensures IsRun(s, delims, 0, p) <==> IsRun(s, delims, next, p) {
        SkipDelims(s, delims, next, p);
      }
    }
  }

  /** A token in memory: the C string of a piece of s. */
  ghost predicate TokenIs(mem: seq<Char>, str: int, s: seq<Char>, p: Piece, token: int) {
    && token == str + p.start >= 0 && p.start + p.len <= |s| && token + p.len < |mem|
    && mem[token..token + p.len] == s[p.start..p.start + p.len]
    && Between(mem, token, token + p.len)
  }

  /** What remains, as a part of the string s at `str`. */
  ghost predicate Open(now: seq<Char>, nxt: int, size: int, str: int, s: seq<Char>) {
    && Resting(now, nxt, size) && nxt + size == str + |s| && 0 <= str
    && (size > 0 ==> 0 < nxt + 1 - str < |s| && Remaining(now, nxt, size) == s[nxt + 1 - str..])
  }

  /** The pieces are in memory as tokens, and end before `bound`. */
  ghost predicate Kept(now: seq<Char>, str: int, s: seq<Char>, pieces: seq<Piece>, tokens: seq<int>, bound: int) {
    && |pieces| == |tokens|
    && forall i :: 0 <= i < |pieces| ==>
         TokenIs(now, str, s, pieces[i], tokens[i]) && pieces[i].start + pieces[i].len < bound
  }

  function Ahead(nxt: int, size: int, str: int, s: seq<Char>, delims: seq<Char>): seq<Piece> {
    if size > 0 && 0 <= nxt + 1 - str <= |s| then Pieces(s, nxt + 1 - str, delims) else []
  }

  /** The state once `tokens` were returned, for the pieces `done`. */
  ghost predicate Progress(now: seq<Char>, nxt: int, size: int, str: int, s: seq<Char>, delims: seq<Char>,
                           done: seq<Piece>, tokens: seq<int>) {
    && Open(now, nxt, size, str, s)
    && Pieces(s, 0, delims) == done + Ahead(nxt, size, str, s, delims)
    && Kept(now, str, s, done, tokens, if size > 0 then nxt + 1 - str else |s| + 1)
  }

  lemma TakenMore(t: seq<Char>, delims: seq<Char>)
    requires Plain(t, delims) < |t|
    ensures Plain(t, delims) < Taken(t, delims)
  {
    PlainMeans(t, delims);
    SpanStep(t[Plain(t, delims)..], delims, 0);
  }

  /** The token of a call, and what is open after it. */
  lemma CutToken(before: seq<Char>, now: seq<Char>, nxt: int, size: int, str: int, s: seq<Char>, delims: seq<Char>, at: nat)
    requires at <= |s| && 0 <= str && Between(before, str + at, str + |s|) && before[str + at..str + |s|] == s[at..]
    requires Cut(before, now, nxt, size, str + at, s[at..], delims)
    ensures var p := Piece(at, Plain(s[at..], delims));
            && TokenIs(now, str, s, p, str + at) && p.start + p.len < if size > 0 then nxt + 1 - str else |s| + 1
    ensures Open(now, nxt, size, str, s) && size >= 0
    ensures Ahead(nxt, size, str, s, delims)
            == var next := at + Taken(s[at..], delims); if next == |s| then [] else Pieces(s, next, delims)
  {
    hide Plain, Taken, Span, Pieces, Cut, Between, Resting, Remaining;
    var t := s[at..];
    var n, taken := Plain(t, delims), Taken(t, delims);
    CutText(before, now, nxt, size, str + at, t, delims);
    Slices(s, at, n);
    Slices(s, at, taken);
  }

  lemma Slices(s: seq<Char>, at: nat, n: nat)
    requires at + n <= |s|
    ensures s[at..][..n] == s[at..at + n] && s[at..][n..] == s[at + n..]
  {}

  lemma CutText(before: seq<Char>, now: seq<Char>, nxt: int, size: int, at: int, t: seq<Char>, delims: seq<Char>)
    requires 0 <= at && Between(before, at, at + |t|) && before[at..at + |t|] == t
    requires Cut(before, now, nxt, size, at, t, delims)
    ensures var n := Plain(t, delims);
            && at + n < |now| && now[at..at + n] == t[..n] && Between(now, at, at + n) && at + n < if size > 0 then nxt + 1 else at + |t| + 1
    ensures size >= 0 && Resting(now, nxt, size) && nxt + size == at + |t| && Remaining(now, nxt, size) == t[Taken(t, delims)..]
    ensures if size > 0 then nxt + 1 == at + Taken(t, delims) < at + |t| else Taken(t, delims) == |t|
  {
    hide Plain, Taken, Span;
    var n := Plain(t, delims);
    if n < |t| { TakenMore(t, delims); }
    forall k | at <= k < at + n ensures now[k] == before[k] && now[k] != 0 {}
    assert now[at..at + n] == before[at..at + n] == before[at..at + |t|][..n];
  }

  lemma TokensKept(before: seq<Char>, now: seq<Char>, a: int, b: int, str: int, s: seq<Char>,
                   pieces: seq<Piece>, tokens: seq<int>, bound: int)
    requires Kept(before, str, s, pieces, tokens, bound) && Zeroed(before, now, a, b) && str + bound <= a
    ensures Kept(now, str, s, pieces, tokens, bound)
  {
    forall i | 0 <= i < |pieces| ensures TokenIs(now, str, s, pieces[i], tokens[i]) {
      TokenKept(before, now, a, b, str, s, pieces[i], tokens[i]);
    }
  }

  lemma TokenKept(before: seq<Char>, now: seq<Char>, a: int, b: int, str: int, s: seq<Char>, p: Piece, token: int)
    requires TokenIs(before, str, s, p, token) && Zeroed(before, now, a, b) && token + p.len < a
    ensures TokenIs(now, str, s, p, token)
  {}

  lemma FirstCall(was: seq<Char>, now: seq<Char>, nxt: int, size: int, str: int, s: seq<Char>, delims: seq<Char>)
    requires 0 <= str && Between(was, str, str + |s|) && was[str..str + |s|] == s
    requires Cut(was, now, nxt, size, str, s, delims)
    ensures Progress(now, nxt, size, str, s, delims, [Piece(0, Plain(s, delims))], [str]) && size >= 0
  {
    hide Plain, Taken, Cut, Between, TokenIs, Open, Pieces, Ahead;
    assert s[0..] == s;
    CutToken(was, now, nxt, size, str, s, delims, 0);
    FirstAndRest(s, 0, delims);
  }

  /** A NULL call in what is open: its token, and what is open then. */
  lemma NextOpen(was: seq<Char>, nxt0: int, size0: int, now: seq<Char>, nxt: int, size: int,
                 str: int, s: seq<Char>, delims: seq<Char>)
    requires Open(was, nxt0, size0, str, s) && size0 > 0
    requires Cut(was, now, nxt, size, nxt0 + 1, s[nxt0 + 1 - str..], delims)
    ensures Open(now, nxt, size, str, s) && 0 <= size < size0
    ensures var p := Piece(nxt0 + 1 - str, Plain(s[nxt0 + 1 - str..], delims));
            && TokenIs(now, str, s, p, nxt0 + 1) && p.start + p.len < (if size > 0 then nxt + 1 - str else |s| + 1)
            && Ahead(nxt0, size0, str, s, delims) == [p] + Ahead(nxt, size, str, s, delims)
  {
    var at := nxt0 + 1 - str;
    OpenIsString(was, nxt0, size0, str, s);
    CutMeans(was, now, nxt, size, nxt0 + 1, s[at..], delims);
    CutToken(was, now, nxt, size, str, s, delims, at);
    FirstAndRest(s, at, delims);
    hide Plain, Taken, Between, TokenIs, Open, Pieces, Remaining, Resting, Cut;
  }

  lemma NextKept(was: seq<Char>, nxt0: int, size0: int, now: seq<Char>, nxt: int, size: int,
                 str: int, s: seq<Char>, delims: seq<Char>, done: seq<Piece>, tokens: seq<int>)
    requires Open(was, nxt0, size0, str, s) && size0 > 0
    requires Kept(was, str, s, done, tokens, nxt0 + 1 - str)
    requires Cut(was, now, nxt, size, nxt0 + 1, s[nxt0 + 1 - str..], delims)
    ensures Kept(now, str, s, done + [Piece(nxt0 + 1 - str, Plain(s[nxt0 + 1 - str..], delims))], tokens + [nxt0 + 1],
                 if size > 0 then nxt + 1 - str else |s| + 1)
  {
    hide Plain, Taken, Between, TokenIs, Open, Pieces, Cut, Zeroed, Kept, Remaining, Resting, Ahead;
    var at := nxt0 + 1 - str;
    NextOpen(was, nxt0, size0, now, nxt, size, str, s, delims);
    OpenIsString(was, nxt0, size0, str, s);
    var t := s[at..];
    CutMeans(was, now, nxt, size, nxt0 + 1, t, delims);
    TokensKept(was, now, nxt0 + 1 + Plain(t, delims), nxt0 + 1 + Taken(t, delims), str, s, done, tokens, at);
    KeptAppend(now, str, s, done, tokens, at, Piece(at, Plain(t, delims)), nxt0 + 1, if size > 0 then nxt + 1 - str else |s| + 1);
  }

  lemma NextCall(was: seq<Char>, nxt0: int, size0: int, now: seq<Char>, nxt: int, size: int,
                 str: int, s: seq<Char>, delims: seq<Char>, done: seq<Piece>, tokens: seq<int>)
    requires Progress(was, nxt0, size0, str, s, delims, done, tokens) && size0 > 0
    requires Cut(was, now, nxt, size, nxt0 + 1, s[nxt0 + 1 - str..], delims)
    ensures Progress(now, nxt, size, str, s, delims,
                     done + [Piece(nxt0 + 1 - str, Plain(s[nxt0 + 1 - str..], delims))], tokens + [nxt0 + 1])
    ensures 0 <= size < size0
  {
    hide Plain, Taken, Between, TokenIs, Open, Pieces, Cut, Zeroed, Kept, Ahead, Remaining, Resting;
    OpenIsString(was, nxt0, size0, str, s);
    NextOpen(was, nxt0, size0, now, nxt, size, str, s, delims);
    NextKept(was, nxt0, size0, now, nxt, size, str, s, delims, done, tokens);
    var p := Piece(nxt0 + 1 - str, Plain(s[nxt0 + 1 - str..], delims));
    Regroup(done, p, Ahead(nxt, size, str, s, delims));
  }

  lemma Regroup(a: seq<Piece>, p: Piece, b: seq<Piece>)
    ensures a + ([p] + b) == a + [p] + b
  {}

  lemma CutMeans(before: seq<Char>, now: seq<Char>, nxt: int, size: int, at: int, t: seq<Char>, delims: seq<Char>)
    requires Cut(before, now, nxt, size, at, t, delims) && t != []
    ensures Zeroed(before, now, at + Plain(t, delims), at + Taken(t, delims)) && 0 <= size <= |t|
    ensures at <= if size > 0 then nxt + 1 else at + |t|
  {}

  lemma KeptAppend(now: seq<Char>, str: int, s: seq<Char>, pieces: seq<Piece>, tokens: seq<int>, bound: int,
                   p: Piece, token: int, later: int)
    requires Kept(now, str, s, pieces, tokens, bound) && TokenIs(now, str, s, p, token)
    requires bound <= later && p.start + p.len < later
    ensures Kept(now, str, s, pieces + [p], tokens + [token], later)
  {
    hide TokenIs;
  }

  lemma OpenIsString(now: seq<Char>, nxt: int, size: int, str: int, s: seq<Char>)
    requires Open(now, nxt, size, str, s) && size > 0
    ensures var at := nxt + 1 - str;
            && 0 <= str && 0 < at < |s| && Between(now, str + at, str + |s|) && now[str + at..str + |s|] == s[at..]
            && Resting(now, nxt, size) && Remaining(now, nxt, size) == s[at..]
  {}

  lemma ProgressMeans(now: seq<Char>, nxt: int, size: int, str: int, s: seq<Char>, delims: seq<Char>,
                      done: seq<Piece>, tokens: seq<int>)
    requires Progress(now, nxt, size, str, s, delims, done, tokens)
    ensures Resting(now, nxt, size)
    ensures if size > 0 then 0 <= nxt + 1 - str <= |s| && Remaining(now, nxt, size) == s[nxt + 1 - str..] != []
            else Remaining(now, nxt, size) == [] && done == Pieces(s, 0, delims)
    ensures |tokens| == |done| && forall i :: 0 <= i < |tokens| ==> TokenIs(now, str, s, done[i], tokens[i])
  {
    hide TokenIs, Pieces;
    if size == 0 { assert done + [] == done; }
  }

  /** The tokenizer's static variables, over the memory its strings are in. */
  class Tokenizer {
    const mem: array<Char>
    var nxt: int
    var size: int

    ghost predicate Valid()
      reads this, mem
    {
      Resting(mem[..], nxt, size)
    }

    ghost function Rest(): seq<Char>
      requires Valid()
      reads this, mem
    {
      Remaining(mem[..], nxt, size)
    }

    method Strlen(p: int) returns (n: int)
      requires IsString(mem[..], p)
      ensures 0 <= n && Between(mem[..], p, p + n) && mem[p..p + n] == TextAt(mem[..], p)
    {
      n := 0;
      ghost var t := mem[..][p..];
      while mem[p + n] != 0
        invariant 0 <= n <= Plain(t, [0])
        decreases |t| - n
      {
        PlainStep(t, [0], n);
        n := n + 1;
      }
      PlainStep(t, [0], n);
      BetweenIsText(mem[..], p, p + n);
    }

    /** The length of the longest prefix of the string at s made of characters of `accept`. */
    method Strspn(s: int, accept: seq<Char>) returns (count: nat)
      requires IsString(mem[..], s) && 0 !in accept
      ensures count == Span(TextAt(mem[..], s), accept)
    {
      ghost var t := TextAt(mem[..], s);
      BetweenIsText(mem[..], s, s + |t|);
      count := 0;
      while mem[s + count] != 0
        invariant count <= Span(t, accept)
        decreases |t| - count
      {
        SpanStep(t, accept, count);
        var a := 0;
        while a < |accept|
          invariant a <= |accept| && t[count] !in accept[..a]
        {
          if mem[s + count] == accept[a] { break; }
          a := a + 1;
        }
        if a == |accept| {
          assert accept[..a] == accept;
          return;
        }
        count := count + 1;
      }
    }

    /** One call: on a new string or, with NULL (-1), on what is left of the last one. */
    method Strtok(str: int, delims: seq<Char>) returns (token: int)
      requires 0 !in delims
      requires if str >= 0 then IsString(mem[..], str) else str == -1 && Valid()
      modifies this, mem
      ensures Valid()
      ensures str < 0 && old(Rest()) == [] ==>
                token == -1 && nxt == old(nxt) && size == old(size) && mem[..] == old(mem[..])
      ensures str < 0 && old(Rest()) != [] ==>
                token == old(nxt) + 1 && Cut(old(mem[..]), mem[..], nxt, size, token, old(Rest()), delims)
      ensures str >= 0 ==> token == str && Cut(old(mem[..]), mem[..], nxt, size, token, TextAt(old(mem[..]), str), delims)
    {
      hide Plain, Span, Taken, TextAt, IsString;
      token := str;
      if str >= 0 {
        nxt := str;
        size := Strlen(str);
      } else if size > 0 {
        nxt := nxt + 1;
        size := size - 1;
        token := nxt;
      } else {
        token := -1;
      }
      ghost var t, at := mem[nxt..nxt + size], nxt;
      Advance(delims);
      assert t == [] ==> mem[..] == old(mem[..]) && nxt == at && size == 0;
    }

    /** The loop of `strtok`, on the string `nxt` and `size` name. */
    method Advance(delims: seq<Char>)
      requires 0 !in delims && 0 <= size && Between(mem[..], nxt, nxt + size)
      modifies this, mem
      ensures Cut(old(mem[..]), mem[..], nxt, size, old(nxt), old(mem[nxt..nxt + size]), delims)
    {
      hide Plain, Span, Taken, TextAt, IsString, Between, Zeroed, Cut, Resting, Remaining;
      ghost var was, start, end := mem[..], nxt, nxt + size;
      Bounds(was, start, end);
      ghost var t := was[start..end];
      ghost var cut, last, done := start + Plain(t, delims), start + Taken(t, delims), false;
      while mem[nxt] != 0
        invariant nxt + size == end && nxt <= end
        invariant !done ==> mem[..] == was && start <= nxt <= cut
        invariant done ==> cut < last && Zeroed(was, mem[..], cut, last)
        invariant done ==> nxt == (if last < end then last - 1 else end) && mem[nxt] == 0
        decreases if done then 0 else size + 1
      {
        ghost var p := nxt;
        Inside(was, start, p, end);
        Here(was, start, p, end, delims);
        NoZeros(was, cut);
        var i := Strspn(nxt, delims);
        while i > 1
          invariant nxt + size == end && i >= 0
          invariant i == 0 ==> nxt == p < cut && mem[..] == was
          invariant i > 0 ==> nxt + i == last && cut <= nxt && Zeroed(was, mem[..], cut, nxt)
          decreases i
        {
          ZeroOne(was, mem[..], cut, nxt);
          mem[nxt] := 0;
          nxt := nxt + 1;
          size := size - 1;
          i := i - 1;
        }
        if i == 1 {
          ZeroOne(was, mem[..], cut, nxt);
          mem[nxt] := 0;
          if size > 1 {
            nxt := nxt - 1;
            size := size + 1;
          }
          done := true;
        }
        nxt := nxt + 1;
        size := size - 1;
        if done { Stops(was, mem[..], start, end, cut, last); }
      }
      Ends(was, mem[..], start, end, delims, nxt, done);
    }

    /** The loops that split a string (kernel/fs/fat16.cpp, kernel/command.cpp): all its tokens. At the end every
        one of them is still the string it was when it was returned. */
    method Tokenize(str: int, delims: seq<Char>) returns (tokens: seq<int>)
      requires 0 !in delims && IsString(mem[..], str)
      modifies this, mem
      ensures Valid() && Rest() == []
      ensures var s := TextAt(old(mem[..]), str);
              && |tokens| == |Pieces(s, 0, delims)|
              && forall i :: 0 <= i < |tokens| ==> TokenIs(mem[..], str, s, Pieces(s, 0, delims)[i], tokens[i])
    {
      hide Plain, Span, Taken, Pieces, TokenIs, Cut, Between, TextAt, Open, Kept, Remaining, Resting, Progress;
      ghost var s := TextAt(mem[..], str);
      tokens := [];
      StringMeans(mem[..], str);
      hide IsString;
      ghost var was := mem[..];
      var token := Strtok(str, delims);
      FirstCall(was, mem[..], nxt, size, str, s, delims);
      ghost var done := [Piece(0, Plain(s, delims))];
      assert tokens + [token] == [str];
      while token != -1
        invariant Valid()
        invariant Progress(mem[..], nxt, size, str, s, delims, done, if token == -1 then tokens else tokens + [token])
        invariant size >= 0 && (token == -1 ==> size == 0)
        decreases if token == -1 then 0 else size + 1
      {
        tokens := tokens + [token];
        was := mem[..];
        ghost var nxt0, size0 := nxt, size;
        ProgressMeans(was, nxt, size, str, s, delims, done, tokens);
        token := Strtok(-1, delims);
        if size0 > 0 {
          NextCall(was, nxt0, size0, mem[..], nxt, size, str, s, delims, done, tokens);
          done := done + [Piece(nxt0 + 1 - str, Plain(s[nxt0 + 1 - str..], delims))];
        }
      }
      ProgressMeans(mem[..], nxt, size, str, s, delims, done, tokens);
    }
  }
}
