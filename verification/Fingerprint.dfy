/** The message fingerprint of the repeated-failure rule: lower-case the message, then
    replace every match of  \b[\da-fA-F]{4,}\b | \b\d+\b  by X. */
module Fingerprints {
  import opened Domain

  predicate IsDigit(c: char) {
    '0' <= c <= '9'
  }

  predicate IsHex(c: char) {
    IsDigit(c) || 'a' <= c <= 'f' || 'A' <= c <= 'F'
  }

  /** The characters between which \b does not match. */
  predicate IsWord(c: char) {
    IsDigit(c) || 'a' <= c <= 'z' || 'A' <= c <= 'Z' || c == '_'
  }

  function LowerChar(c: char): char {
    if 'A' <= c <= 'Z' then (c as int + 32) as char else c
  }

  function Lower(s: string): (r: string)
    ensures |r| == |s|
  {
    seq(|s|, i requires 0 <= i < |s| => LowerChar(s[i]))
  }

  // ----- Leftmost-first matching, as the regular-expression engine does it -----

  datatype Class = Hex | Digit

  predicate InClass(cls: Class, c: char) {
    if cls.Hex? then IsHex(c) else IsDigit(c)
  }

  /** \b at position i. */
  predicate Boundary(s: string, i: nat)
    requires i <= |s|
  {
    (i > 0 && IsWord(s[i - 1])) != (i < |s| && IsWord(s[i]))
  }

  /** How far a repetition of the class reaches from position i. */
  function Reach(s: string, i: nat, cls: Class): (n: nat)
    requires i <= |s|
    ensures i + n <= |s|
    ensures forall k :: i <= k < i + n ==> InClass(cls, s[k])
    ensures i + n < |s| ==> !InClass(cls, s[i + n])
    decreases |s| - i
  {
    if i < |s| && InClass(cls, s[i]) then 1 + Reach(s, i + 1, cls) else 0
  }

  /** A greedy repetition of at least `least` characters followed by \b: the longest
      length first, backing off until \b matches. */
  function BackOff(s: string, i: nat, n: nat, least: nat): Option<nat>
    requires i + n <= |s|
  {
    if n < least || n == 0 then None
    else if Boundary(s, i + n) then Some(n)
    else BackOff(s, i, n - 1, least)
  }

  /** The length of the match at position i: the first alternative is preferred. */
  function Match(s: string, i: nat): (r: Option<nat>)
    requires i <= |s|
    ensures r.Some? ==> 0 < r.value <= |s| - i
  {
    if !Boundary(s, i) then None
    else
      var hex := BackOff(s, i, Reach(s, i, Hex), 4);
      BackOffBound(s, i, Reach(s, i, Hex), 4);
      BackOffBound(s, i, Reach(s, i, Digit), 1);
      if hex.Some? then hex else BackOff(s, i, Reach(s, i, Digit), 1)
  }

  lemma {:induction false} BackOffBound(s: string, i: nat, n: nat, least: nat)
    requires i + n <= |s|
    ensures var r := BackOff(s, i, n, least); r.Some? ==> 0 < r.value <= n
  {
    if n == 0 {
    } else {
      BackOffBound(s, i, n - 1, least);
    }
  }

  /** Replacing every match, scanning from position i. */
  function Scan(s: string, i: nat): string
    requires i <= |s|
    decreases |s| - i
  {
    if i == |s| then ""
    else
      var m := Match(s, i);
      if m.Some? then "X" + Scan(s, i + m.value) else [s[i]] + Scan(s, i + 1)
  }

  function Fingerprint(msg: string): string {
    Scan(Lower(msg), 0)
  }

  // ----- Words -----

  function WordRun(s: string): (n: nat)
    ensures n <= |s|
    ensures forall k :: 0 <= k < n ==> IsWord(s[k])
    ensures n < |s| ==> !IsWord(s[n])
  {
    if |s| > 0 && IsWord(s[0]) then 1 + WordRun(s[1..]) else 0
  }

  /** The length of the first piece. */
  function HeadLength(s: string): (n: nat)
    requires |s| > 0
    ensures 0 < n <= |s|
  {
    if IsWord(s[0]) then WordRun(s) else 1
  }

  /** Maximal word runs, and every other character on its own. */
  function Pieces(s: string): seq<string>
    decreases |s|
  {
    if |s| == 0 then [] else [s[..HeadLength(s)]] + Pieces(s[HeadLength(s)..])
  }

  predicate Noise(p: string) {
    || (|p| > 0 && forall k :: 0 <= k < |p| ==> IsDigit(p[k]))
    || (|p| >= 4 && forall k :: 0 <= k < |p| ==> IsHex(p[k]))
  }

  function Mask(p: string): string {
    if Noise(p) then "X" else p
  }

  function MaskAll(ps: seq<string>): (qs: seq<string>)
    ensures |qs| == |ps|
  {
    seq(|ps|, i requires 0 <= i < |ps| => Mask(ps[i]))
  }

  function LowerAll(ps: seq<string>): (qs: seq<string>)
    ensures |qs| == |ps|
  {
    seq(|ps|, i requires 0 <= i < |ps| => Lower(ps[i]))
  }

  function Join(ps: seq<string>): string {
    if |ps| == 0 then "" else ps[0] + Join(ps[1..])
  }

  /** The reference definition: split, mask, and join again. */
  function Masked(s: string): string {
    Join(MaskAll(Pieces(s)))
  }

  // ----- Scanning is masking words -----

  /** s[i..end] runs to the end of a word. */
  ghost predicate WordTo(s: string, i: nat, end: nat) {
    && i <= end <= |s|
    && (forall k :: i <= k < end ==> IsWord(s[k]))
    && (end < |s| ==> !IsWord(s[end]))
  }

  /** From the start of a word, the only possible match is the whole word. */
  lemma {:induction false} BackOffInWord(s: string, i: nat, n: nat, least: nat, end: nat)
    requires i + n <= end && WordTo(s, i, end)
    ensures BackOff(s, i, n, least) == if i + n == end && n > 0 && n >= least then Some(n) else None
  {
    if n > 0 && i + n < end {
      assert !Boundary(s, i + n);
      BackOffInWord(s, i, n - 1, least, end);
    }
  }

  /** A repetition of a class takes in a whole word exactly when it consists of that class. */
  lemma ReachWord(s: string, i: nat, end: nat, cls: Class)
    requires i < end && WordTo(s, i, end)
    ensures i + Reach(s, i, cls) <= end
    ensures i + Reach(s, i, cls) == end <==> forall k :: 0 <= k < end - i ==> InClass(cls, s[i..end][k])
  {
    var n, w := Reach(s, i, cls), s[i..end];
    assert i + n <= end by {
      assert end < |s| ==> !InClass(cls, s[end]);
    }
    assert forall k :: 0 <= k < |w| ==> w[k] == s[i + k];
    if i + n < end {
      assert !InClass(cls, w[n]);
    }
  }

  lemma NoiseIs(w: string)
    ensures Noise(w)
       <==> ((|w| > 0 && forall k :: 0 <= k < |w| ==> InClass(Digit, w[k]))
             || (|w| >= 4 && forall k :: 0 <= k < |w| ==> InClass(Hex, w[k])))
  {
  }

  lemma MatchWord(s: string, i: nat, end: nat)
    requires i < end && WordTo(s, i, end)
    requires i > 0 ==> !IsWord(s[i - 1])
    ensures Match(s, i) == if Noise(s[i..end]) then Some(end - i) else None
  {
    ReachWord(s, i, end, Hex);
    ReachWord(s, i, end, Digit);
    BackOffInWord(s, i, Reach(s, i, Hex), 4, end);
    BackOffInWord(s, i, Reach(s, i, Digit), 1, end);
    NoiseIs(s[i..end]);
    assert Boundary(s, i);
  }

  lemma Regroup(s: string, i: nat, end: nat, rest: string)
    requires i < end <= |s|
    ensures [s[i]] + (s[i + 1..end] + rest) == s[i..end] + rest
  {
  }

  /** Scanning from i handles the text up to end as one piece. */
  ghost predicate ScansPiece(s: string, i: nat, end: nat) {
    i < end <= |s| && Scan(s, i) == Mask(s[i..end]) + Scan(s, end)
  }

  lemma ScanStep(s: string, i: nat, m: Option<nat>)
    requires i < |s| && m == Match(s, i)
    ensures Scan(s, i) == if m.Some? then "X" + Scan(s, i + m.value) else [s[i]] + Scan(s, i + 1)
  {
  }

  /** Scanning from i copies the text up to end. */
  ghost predicate ScansVerbatim(s: string, i: nat, end: nat) {
    i <= end <= |s| && Scan(s, i) == s[i..end] + Scan(s, end)
  }

  lemma VerbatimStep(s: string, i: nat, end: nat)
    requires i < end <= |s| && Match(s, i) == None && ScansVerbatim(s, i + 1, end)
    ensures ScansVerbatim(s, i, end)
  {
    ScanStep(s, i, None);
    Regroup(s, i, end, Scan(s, end));
  }

  /** Inside a word nothing matches. */
  lemma {:induction false} ScanInside(s: string, i: nat, end: nat)
    requires 0 < i <= end <= |s| && IsWord(s[i - 1])
    requires forall k :: i <= k < end ==> IsWord(s[k])
    ensures ScansVerbatim(s, i, end)
    decreases end - i
  {
    if i < end {
      assert !Boundary(s, i);
      ScanInside(s, i + 1, end);
      VerbatimStep(s, i, end);
    }
  }

  lemma NoisePiece(s: string, i: nat, end: nat)
    requires i < end <= |s| && Noise(s[i..end]) && Match(s, i) == Some(end - i)
    ensures ScansPiece(s, i, end)
  {
    ScanStep(s, i, Some(end - i));
  }

  lemma VerbatimPiece(s: string, i: nat, end: nat)
    requires i < end <= |s| && !Noise(s[i..end]) && ScansVerbatim(s, i, end)
    ensures ScansPiece(s, i, end)
  {
  }

  /** Scanning over a whole word. */
  lemma ScanWord(s: string, i: nat, end: nat)
    requires i < end && WordTo(s, i, end)
    requires i > 0 ==> !IsWord(s[i - 1])
    ensures ScansPiece(s, i, end)
  {
    MatchWord(s, i, end);
    if Noise(s[i..end]) {
      NoisePiece(s, i, end);
    } else {
      ScanInside(s, i + 1, end);
      VerbatimStep(s, i, end);
      VerbatimPiece(s, i, end);
    }
  }

  /** Scanning over a character outside words. */
  lemma ScanOther(s: string, i: nat, end: nat)
    requires i < |s| && !IsWord(s[i]) && end == i + 1
    ensures ScansPiece(s, i, end)
  {
    assert Reach(s, i, Hex) == 0 && Reach(s, i, Digit) == 0;
    assert s[i..end] == [s[i]];
    assert !IsDigit(s[i..end][0]);
  }

  lemma MaskAllCons(p: string, ps: seq<string>)
    ensures Join(MaskAll([p] + ps)) == Mask(p) + Join(MaskAll(ps))
  {
    assert MaskAll([p] + ps)[1..] == MaskAll(ps);
  }

  /** The first piece of s[i..] is s[i..end]. */
  ghost predicate PieceTo(s: string, i: nat, end: nat) {
    i < |s| && end == i + HeadLength(s[i..])
  }

  lemma PieceShape(s: string, i: nat, end: nat)
    requires PieceTo(s, i, end)
    ensures end <= |s| && if IsWord(s[i]) then WordTo(s, i, end) else end == i + 1
  {
    var rest := s[i..];
    assert forall k :: i <= k < |s| ==> s[k] == rest[k - i];
  }

  lemma ScanHead(s: string, i: nat, end: nat)
    requires PieceTo(s, i, end)
    requires i > 0 && IsWord(s[i - 1]) ==> !IsWord(s[i])
    ensures ScansPiece(s, i, end)
    ensures end < |s| && IsWord(s[end - 1]) ==> !IsWord(s[end])
  {
    PieceShape(s, i, end);
    if IsWord(s[i]) {
      ScanWord(s, i, end);
    } else {
      ScanOther(s, i, end);
    }
  }

  /** Scanning from i masks the rest of the text. */
  ghost predicate ScansMasked(s: string, i: nat) {
    i <= |s| && Scan(s, i) == Masked(s[i..])
  }

  lemma MaskedInPlace(s: string, i: nat, end: nat)
    requires PieceTo(s, i, end) && end <= |s|
    ensures Masked(s[i..]) == Mask(s[i..end]) + Masked(s[end..])
  {
    var rest := s[i..];
    assert rest[..end - i] == s[i..end] && rest[end - i..] == s[end..];
    MaskAllCons(s[i..end], Pieces(s[end..]));
  }

  lemma MaskedPiece(s: string, i: nat, end: nat)
    requires PieceTo(s, i, end) && ScansPiece(s, i, end) && ScansMasked(s, end)
    ensures ScansMasked(s, i)
  {
    MaskedInPlace(s, i, end);
  }

  /** Scanning with the pattern equals splitting into maximal word runs and masking those
      that are all digits, or all hexadecimal and at least four long: for every string. */
  lemma {:induction false} ScanIsMask(s: string, i: nat)
    requires i <= |s|
    requires 0 < i < |s| && IsWord(s[i - 1]) ==> !IsWord(s[i])
    ensures ScansMasked(s, i)
    decreases |s| - i
  {
    if i == |s| {
      assert s[i..] == [] && Scan(s, i) == "";
      assert Masked(s[i..]) == "";
    } else {
      var end := i + HeadLength(s[i..]);
      ScanHead(s, i, end);
      ScanIsMask(s, end);
      MaskedPiece(s, i, end);
    }
  }

  // ----- Splitting is unambiguous -----

  predicate IsPiece(p: string) {
    || (|p| > 0 && forall k :: 0 <= k < |p| ==> IsWord(p[k]))
    || (|p| == 1 && !IsWord(p[0]))
  }

  /** What Pieces produces: no word run directly follows another. */
  ghost predicate Split(ps: seq<string>) {
    && (forall i :: 0 <= i < |ps| ==> IsPiece(ps[i]))
    && (forall i :: 0 <= i < |ps| - 1 ==> !(IsWord(ps[i][0]) && IsWord(ps[i + 1][0])))
  }

  lemma {:induction false} PiecesSplit(s: string)
    ensures Split(Pieces(s)) && Join(Pieces(s)) == s
    ensures |s| > 0 ==> |Pieces(s)| > 0 && |Pieces(s)[0]| > 0 && Pieces(s)[0][0] == s[0]
    decreases |s|
  {
    if |s| == 0 {
    } else {
      var n := HeadLength(s);
      PiecesSplit(s[n..]);
      assert s == s[..n] + s[n..];
      SplitCons(s[..n], Pieces(s[n..]));
    }
  }

  lemma SplitCons(p: string, ps: seq<string>)
    requires IsPiece(p) && Split(ps)
    requires |ps| > 0 ==> !(IsWord(p[0]) && IsWord(ps[0][0]))
    ensures Split([p] + ps) && Join([p] + ps) == p + Join(ps)
  {
    var all := [p] + ps;
    assert all[1..] == ps;
    forall i | 0 <= i < |all| - 1
      ensures !(IsWord(all[i][0]) && IsWord(all[i + 1][0]))
    {
      if i > 0 {
        assert all[i] == ps[i - 1] && all[i + 1] == ps[i - 1 + 1];
      }
    }
  }

  lemma {:induction false} WordRunOf(w: string, rest: string)
    requires forall k :: 0 <= k < |w| ==> IsWord(w[k])
    requires |rest| > 0 ==> !IsWord(rest[0])
    ensures WordRun(w + rest) == |w|
  {
    if |w| > 0 {
      WordRunOf(w[1..], rest);
      assert (w + rest)[1..] == w[1..] + rest;
    } else {
      assert w + rest == rest;
    }
  }

  lemma {:induction false} JoinHead(ps: seq<string>)
    requires Split(ps)
    ensures |Join(ps)| > 0 <==> |ps| > 0
    ensures |ps| > 0 ==> Join(ps)[0] == ps[0][0]
  {
  }

  lemma SplitTail(ps: seq<string>)
    requires Split(ps) && |ps| > 0
    ensures Split(ps[1..])
    ensures |ps| > 1 && IsWord(ps[0][0]) ==> !IsWord(ps[1][0])
  {
    forall i | 0 <= i < |ps[1..]| - 1
      ensures !(IsWord(ps[1..][i][0]) && IsWord(ps[1..][i + 1][0]))
    {
      assert ps[1..][i] == ps[i + 1] && ps[1..][i + 1] == ps[i + 1 + 1];
    }
  }

  lemma {:induction false} PiecesOfJoin(ps: seq<string>)
    requires Split(ps)
    ensures Pieces(Join(ps)) == ps
  {
    if |ps| == 0 {
    } else {
      var p, tail := ps[0], Join(ps[1..]);
      SplitTail(ps);
      PiecesOfJoin(ps[1..]);
      JoinHead(ps[1..]);
      assert IsPiece(p);
      assert Join(ps) == p + tail;
      if IsWord(p[0]) {
        WordRunOf(p, tail);
      }
      assert (p + tail)[..|p|] == p && (p + tail)[|p|..] == tail;
    }
  }

  lemma MaskKeepsPiece(p: string)
    requires IsPiece(p)
    ensures IsPiece(Mask(p)) && (IsWord(Mask(p)[0]) <==> IsWord(p[0]))
  {
    if Noise(p) {
      assert IsHex(p[0]);
      assert "X"[0] == 'X';
    }
  }

  lemma MaskAllSplit(ps: seq<string>)
    requires Split(ps)
    ensures Split(MaskAll(ps))
  {
    forall i | 0 <= i < |ps|
      ensures IsPiece(MaskAll(ps)[i]) && (IsWord(MaskAll(ps)[i][0]) <==> IsWord(ps[i][0]))
    {
      MaskKeepsPiece(ps[i]);
    }
  }

  // ----- Lower-casing -----

  lemma LowerCharFacts(c: char)
    ensures IsWord(LowerChar(c)) <==> IsWord(c)
    ensures IsDigit(LowerChar(c)) <==> IsDigit(c)
    ensures IsHex(LowerChar(c)) <==> IsHex(c)
    ensures LowerChar(LowerChar(c)) == LowerChar(c) != 'X'
  {
  }

  lemma LowerNoise(p: string)
    ensures Noise(Lower(p)) <==> Noise(p)
  {
    forall k | 0 <= k < |p|
      ensures (IsDigit(Lower(p)[k]) <==> IsDigit(p[k])) && (IsHex(Lower(p)[k]) <==> IsHex(p[k]))
    {
      LowerCharFacts(p[k]);
    }
  }

  lemma {:induction false} LowerWordRun(s: string)
    ensures WordRun(Lower(s)) == WordRun(s)
  {
    if |s| == 0 {
    } else {
      LowerCharFacts(s[0]);
      LowerWordRun(s[1..]);
      assert Lower(s)[1..] == Lower(s[1..]);
    }
  }

  lemma LowerSlices(s: string, n: nat)
    requires n <= |s|
    ensures Lower(s)[..n] == Lower(s[..n]) && Lower(s)[n..] == Lower(s[n..])
  {
  }

  lemma LowerAllCons(p: string, ps: seq<string>)
    ensures LowerAll([p] + ps) == [Lower(p)] + LowerAll(ps)
  {
  }

  lemma {:induction false} LowerPieces(s: string)
    ensures Pieces(Lower(s)) == LowerAll(Pieces(s))
    decreases |s|
  {
    if |s| == 0 {
    } else {
      var n := HeadLength(s);
      LowerCharFacts(s[0]);
      LowerWordRun(s);
      LowerPieces(s[n..]);
      LowerSlices(s, n);
      LowerAllCons(s[..n], Pieces(s[n..]));
    }
  }

  // ----- Letters, by their alphabets -----

  const UPPER := "ABCDEFGHIJKLMNOPQRSTUVWXYZ"
  const LOWER := "abcdefghijklmnopqrstuvwxyz"

  /** The same character, or the two cases of one letter. */
  ghost predicate SameLetter(c: char, d: char) {
    c == d || exists k :: 0 <= k < 26 && (c == UPPER[k] || c == LOWER[k]) && (d == UPPER[k] || d == LOWER[k])
  }

  /** Equal but for the case of letters. */
  ghost predicate SameText(s: string, t: string) {
    |s| == |t| && forall i :: 0 <= i < |s| ==> SameLetter(s[i], t[i])
  }

  /** The same text without capital letters. */
  ghost predicate IsLowered(r: string, s: string) {
    SameText(r, s) && forall i :: 0 <= i < |r| ==> r[i] !in UPPER
  }

  lemma Alphabets(k: nat)
    requires k < 26
    ensures UPPER[k] as int == 'A' as int + k && LOWER[k] as int == 'a' as int + k
  {
  }

  lemma InAlphabets(c: char)
    ensures c in UPPER <==> 'A' <= c <= 'Z'
    ensures c in LOWER <==> 'a' <= c <= 'z'
  {
    forall k: nat | k < 26
      ensures UPPER[k] as int == 'A' as int + k && LOWER[k] as int == 'a' as int + k
    {
      Alphabets(k);
    }
    if 'A' <= c <= 'Z' {
      assert UPPER[c as int - 'A' as int] == c;
    }
    if 'a' <= c <= 'z' {
      assert LOWER[c as int - 'a' as int] == c;
    }
  }

  /** Lower-casing a character: capital letters become the letter at their place in the
      alphabet, everything else stays, and no capital is left. */
  lemma LowerCharIs(c: char)
    ensures forall k :: 0 <= k < 26 ==> LowerChar(UPPER[k]) == LOWER[k]
    ensures c !in UPPER ==> LowerChar(c) == c
    ensures LowerChar(c) !in UPPER
  {
    InAlphabets(c);
    InAlphabets(LowerChar(c));
    forall k: nat | k < 26
      ensures LowerChar(UPPER[k]) == LOWER[k]
    {
      Alphabets(k);
    }
  }

  lemma EqualLower(c: char, d: char)
    requires LowerChar(c) == LowerChar(d) && c < d
    ensures SameLetter(c, d)
  {
    var k := c as int - 'A' as int;
    Alphabets(k);
    assert c == UPPER[k] && d == LOWER[k];
  }

  lemma LowerOfSame(c: char, d: char, k: nat)
    requires k < 26 && (c == UPPER[k] || c == LOWER[k]) && (d == UPPER[k] || d == LOWER[k])
    ensures LowerChar(c) == LowerChar(d)
  {
    Alphabets(k);
  }

  /** Two characters have the same lower case exactly when they are the same letter. */
  lemma LowerCharIff(c: char, d: char)
    ensures LowerChar(c) == LowerChar(d) <==> SameLetter(c, d)
  {
    if LowerChar(c) == LowerChar(d) && c < d {
      EqualLower(c, d);
    } else if LowerChar(c) == LowerChar(d) && d < c {
      EqualLower(d, c);
    }
    if k: nat :| k < 26 && (c == UPPER[k] || c == LOWER[k]) && (d == UPPER[k] || d == LOWER[k]) {
      LowerOfSame(c, d, k);
    }
  }

  lemma LowerIff(s: string, t: string)
    ensures Lower(s) == Lower(t) <==> SameText(s, t)
  {
    if |s| == |t| {
      forall i | 0 <= i < |s|
        ensures Lower(s)[i] == Lower(t)[i] <==> SameLetter(s[i], t[i])
      {
        LowerCharIff(s[i], t[i]);
      }
      assert SameText(s, t) ==> Lower(s) == Lower(t);
    }
  }

  /** Lower-casing a text, without saying how. */
  lemma LowerIs(r: string, s: string)
    ensures r == Lower(s) <==> IsLowered(r, s)
  {
    forall i | 0 <= i < |r|
      ensures LowerChar(r[i]) == r[i] <==> r[i] !in UPPER
    {
      LowerCharIs(r[i]);
    }
    LowerIff(r, s);
    LowerTwice(s);
    if IsLowered(r, s) {
      assert Lower(r) == r;
    }
  }

  lemma LowerTwice(s: string)
    ensures Lower(Lower(s)) == Lower(s)
  {
    forall i | 0 <= i < |s|
      ensures LowerChar(Lower(s)[i]) == Lower(s)[i]
    {
      LowerCharFacts(s[i]);
    }
  }

  const DIGITS := "0123456789"
  const HEX_DIGITS := "0123456789abcdefABCDEF"

  lemma DigitsAre(c: char)
    ensures IsDigit(c) <==> c in DIGITS
  {
    if IsDigit(c) {
      assert DIGITS[c as int - '0' as int] == c;
    }
  }

  lemma HexDigitsAre(c: char)
    ensures IsHex(c) <==> c in HEX_DIGITS
  {
    if IsDigit(c) {
      assert HEX_DIGITS[c as int - '0' as int] == c;
    } else if 'a' <= c <= 'f' {
      assert HEX_DIGITS[10 + c as int - 'a' as int] == c;
    } else if 'A' <= c <= 'F' {
      assert HEX_DIGITS[16 + c as int - 'A' as int] == c;
    }
  }

  /** The character classes of the pattern, by their members. */
  lemma ClassesAre(c: char)
    ensures IsDigit(c) <==> c in DIGITS
    ensures IsHex(c) <==> c in HEX_DIGITS
    ensures IsWord(c) <==> c in DIGITS || c in UPPER || c in LOWER || c == '_'
  {
    DigitsAre(c);
    HexDigitsAre(c);
    InAlphabets(c);
  }

  // ----- What a shared fingerprint means -----

  /** Piece by piece, equal but for the case of letters or both noise. */
  ghost predicate SameClass(m1: string, m2: string) {
    var p, q := Pieces(m1), Pieces(m2);
    && |p| == |q|
    && forall i :: 0 <= i < |p| ==> SameText(p[i], q[i]) || (Noise(p[i]) && Noise(q[i]))
  }

  lemma FingerprintPieces(m: string)
    ensures Fingerprint(m) == Join(MaskAll(LowerAll(Pieces(m))))
    ensures Pieces(Fingerprint(m)) == MaskAll(LowerAll(Pieces(m)))
  {
    var low := Lower(m);
    ScanIsMask(low, 0);
    assert low[0..] == low;
    LowerPieces(m);
    PiecesSplit(low);
    MaskAllSplit(Pieces(low));
    PiecesOfJoin(MaskAll(Pieces(low)));
  }

  lemma MaskedPair(p: string, q: string)
    ensures Mask(Lower(p)) == Mask(Lower(q)) <==> (SameText(p, q) || (Noise(p) && Noise(q)))
  {
    LowerIff(p, q);
    LowerNoise(p);
    LowerNoise(q);
    if |p| > 0 {
      LowerCharFacts(p[0]);
    }
    if |q| > 0 {
      LowerCharFacts(q[0]);
    }
    assert "X"[0] == 'X';
  }

  /** Two messages share a fingerprint exactly when they are the same error class. */
  lemma FingerprintEquivalence(m1: string, m2: string)
    ensures Fingerprint(m1) == Fingerprint(m2) <==> SameClass(m1, m2)
  {
    FingerprintPieces(m1);
    FingerprintPieces(m2);
    var p, q := Pieces(m1), Pieces(m2);
    var f, g := MaskAll(LowerAll(p)), MaskAll(LowerAll(q));
    if |p| == |q| {
      forall i | 0 <= i < |p|
        ensures f[i] == g[i] <==> (SameText(p[i], q[i]) || (Noise(p[i]) && Noise(q[i])))
      {
        MaskedPair(p[i], q[i]);
      }
      if SameClass(m1, m2) {
        assert f == g;
      }
    }
  }

  /** A fingerprint has no noise left: fingerprinting it again only lower-cases the X. */
  lemma FingerprintStable(m: string)
    ensures IsLowered(Fingerprint(Fingerprint(m)), Fingerprint(m))
  {
    LowerIs(Lower(Fingerprint(m)), Fingerprint(m));
    FingerprintAgain(m);
  }

  lemma FingerprintAgain(m: string)
    ensures Fingerprint(Fingerprint(m)) == Lower(Fingerprint(m))
  {
    var f := Fingerprint(m);
    var ps := LowerAll(Pieces(m));
    FingerprintPieces(m);
    FingerprintPieces(f);
    var again := LowerAll(Pieces(f));
    forall i | 0 <= i < |ps|
      ensures Mask(again[i]) == again[i]
    {
      LowerNoise(Mask(ps[i]));
      assert "X"[0] == 'X';
    }
    assert MaskAll(again) == again;
    LowerPieces(f);
    PiecesSplit(Lower(f));
  }

  /** Piece by piece, a fingerprint has an X for noise and otherwise the piece itself in lower
      case. */
  lemma PieceByPiece(m: string, i: nat)
    requires i < |Pieces(m)|
    ensures |Pieces(Fingerprint(m))| == |Pieces(m)|
    ensures if Noise(Pieces(m)[i]) then Pieces(Fingerprint(m))[i] == "X"
            else IsLowered(Pieces(Fingerprint(m))[i], Pieces(m)[i])
  {
    LowerIs(Lower(Pieces(m)[i]), Pieces(m)[i]);
    FingerprintPieces(m);
    LowerNoise(Pieces(m)[i]);
  }

  /** A word with a character that is no hexadecimal digit is kept, anywhere in a message: a
      number with a unit attached, such as 5000ms, is not masked. */
  lemma UnitsAreKept(m: string, i: nat, k: nat)
    requires i < |Pieces(m)| && k < |Pieces(m)[i]| && !IsHex(Pieces(m)[i][k])
    ensures |Pieces(Fingerprint(m))| == |Pieces(m)|
    ensures IsLowered(Pieces(Fingerprint(m))[i], Pieces(m)[i])
  {
    PieceByPiece(m, i);
    assert !Noise(Pieces(m)[i]);
  }

  /** A hexadecimal word that is no decimal number is masked from four characters on. */
  lemma HexWords(m: string, i: nat, k: nat)
    requires i < |Pieces(m)| && forall j :: 0 <= j < |Pieces(m)[i]| ==> Pieces(m)[i][j] in HEX_DIGITS
    requires k < |Pieces(m)[i]| && Pieces(m)[i][k] !in DIGITS
    ensures |Pieces(Fingerprint(m))| == |Pieces(m)|
    ensures if |Pieces(m)[i]| >= 4 then Pieces(Fingerprint(m))[i] == "X"
            else IsLowered(Pieces(Fingerprint(m))[i], Pieces(m)[i])
  {
    var p := Pieces(m)[i];
    PieceByPiece(m, i);
    forall j | 0 <= j < |p|
      ensures IsHex(p[j])
    {
      ClassesAre(p[j]);
    }
    ClassesAre(p[k]);
  }

  /** Lower-case text without noise is its own fingerprint. */
  lemma PlainWords(ps: seq<string>)
    requires Split(ps) && forall i :: 0 <= i < |ps| ==> !Noise(ps[i]) && Lower(ps[i]) == ps[i]
    ensures Fingerprint(Join(ps)) == Join(ps)
  {
    PiecesOfJoin(ps);
    FingerprintPieces(Join(ps));
    assert LowerAll(ps) == ps && MaskAll(ps) == ps;
  }
}
