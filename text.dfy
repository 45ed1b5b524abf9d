/** The textual form of an intset: the acceptance rule of is_valid_input,
    the digit/comma filter, strtok and atoi of intset_in, and the "{a, b}"
    layout written by intset_out. */
module Text {
  import opened Common
  import opened SetSpec

  predicate IsDigit(c: char) { '0' <= c <= '9' }

  /** The characters is_valid_input lets through. */
  predicate Allowed(c: char) {
    IsDigit(c) || c == '{' || c == '}' || c == ',' || c == ' ' || c == '-'
  }

  predicate AllDigits(t: string) {
    forall i :: 0 <= i < |t| ==> IsDigit(t[i])
  }

  /** Number of occurrences of `c` in `s`. */
  function CountOf(s: string, c: char): nat {
    if s == [] then 0
    else CountOf(s[..|s| - 1], c) + (if s[|s| - 1] == c then 1 else 0)
  }

  // ---------------------------------------------------------------------
  // is_valid_input: the sticky flags, as facts about the first n characters

  /** `digitSeen` after n characters: some digit occurs among them. */
  predicate DigitBefore(s: string, n: nat)
    requires n <= |s|
  {
    exists d :: 0 <= d < n && IsDigit(s[d])
  }

  /** Position j is a space with a digit somewhere before it. */
  predicate SpaceAfterDigit(s: string, j: nat)
    requires j < |s|
  {
    s[j] == ' ' && DigitBefore(s, j)
  }

  /** `spaceSeen` after n characters. */
  predicate SpaceNoted(s: string, n: nat)
    requires n <= |s|
  {
    exists j :: 0 <= j < n && SpaceAfterDigit(s, j)
  }

  /** `commaSeen` after n characters: some comma follows the first space
      that follows a digit. */
  predicate CommaNoted(s: string, n: nat)
    requires n <= |s|
  {
    exists c :: 0 <= c < n && s[c] == ',' && SpaceNoted(s, c)
  }

  /** The digit at k comes after the first space-after-digit with no comma
      since that space: is_valid_input rejects here. */
  predicate GapAt(s: string, k: nat)
    requires k < |s|
  {
    IsDigit(s[k]) && SpaceNoted(s, k) && !CommaNoted(s, k)
  }

  /** The acceptance rule of is_valid_input as written: only allowed
      characters, no digit in a gap, and exactly one '{' and one '}',
      wherever they stand. */
  predicate Accepts(s: string) {
    && (forall k :: 0 <= k < |s| ==> Allowed(s[k]))
    && (forall k :: 0 <= k < |s| ==> !GapAt(s, k))
    && CountOf(s, '{') == 1
    && CountOf(s, '}') == 1
  }

  /** The evidently intended rule: the same, except that the space rule
      forbids only two numbers separated by blanks with no comma between. */
  predicate AcceptsIntended(s: string) {
    && (forall k :: 0 <= k < |s| ==> Allowed(s[k]))
    && CountOf(s, '{') == 1
    && CountOf(s, '}') == 1
    && forall d, j, k :: 0 <= d < j < k < |s| && IsDigit(s[d]) && s[j] == ' ' && IsDigit(s[k]) ==>
         exists c :: d < c < k && s[c] == ','
  }

  // ---------------------------------------------------------------------
  // intset_in: filter, strtok, atoi

  /** The characters the parser keeps: digits and commas, and also '-' when
      `sign` holds (the source keeps no '-'). */
  predicate Kept(c: char, sign: bool) {
    IsDigit(c) || c == ',' || (sign && c == '-')
  }

  /** The filtered copy `tempstr` that intset_in builds. */
  function Keep(s: string, sign: bool): (t: string)
    ensures forall i :: 0 <= i < |t| ==> Kept(t[i], sign)
    ensures |t| <= |s|
  {
    if s == [] then []
    else Keep(s[..|s| - 1], sign) + (if Kept(s[|s| - 1], sign) then [s[|s| - 1]] else [])
  }

  /** Length of the leading comma-free piece of t. */
  function PieceLen(t: string): (n: nat)
    ensures n <= |t|
    ensures forall i :: 0 <= i < n ==> t[i] != ','
    ensures n < |t| ==> t[n] == ','
  {
    if t == [] || t[0] == ',' then 0 else 1 + PieceLen(t[1..])
  }

  /** strtok(t, ","): the maximal comma-free pieces of t, left to right,
      empty pieces skipped. */
  function Tokens(t: string): (ts: seq<string>)
    ensures forall i :: 0 <= i < |ts| ==> ts[i] != [] && ',' !in ts[i]
    ensures forall i, k :: 0 <= i < |ts| && 0 <= k < |ts[i]| ==> ts[i][k] in t
    decreases |t|
  {
    if t == [] then []
    else if t[0] == ',' then Tokens(t[1..])
    else
      var n := PieceLen(t);
      [t[..n]] + Tokens(t[n..])
  }

  /** Value of a decimal digit. */
  function DigitOf(c: char): (d: nat)
    requires IsDigit(c)
    ensures d < 10
  {
    c as int - '0' as int
  }

  function DigitChar(d: nat): (c: char)
    requires d < 10
    ensures IsDigit(c) && DigitOf(c) == d
  {
    ('0' as int + d) as char
  }

  /** Decimal value of a digit string. */
  function DigitsValue(t: string): nat
    requires AllDigits(t)
  {
    if t == [] then 0
    else DigitsValue(t[..|t| - 1]) * 10 + DigitOf(t[|t| - 1])
  }

  function InRange(v: int): (r: Result<int32>)
    ensures r.Ok? <==> -0x8000_0000 <= v <= INT32_MAX
    ensures r.Ok? ==> r.value == v
    ensures r.Err? ==> r.error == NumberOutOfRange
  {
    if -0x8000_0000 <= v <= INT32_MAX then Ok(v) else Err(NumberOutOfRange)
  }

  /** atoi on a token: an optional '-' and at least one digit, and nothing
      else. A value outside int32 (undefined in C) is NumberOutOfRange. */
  function Decimal(t: string): Result<int32> {
    if t != [] && AllDigits(t) then InRange(DigitsValue(t))
    else if |t| >= 2 && t[0] == '-' && AllDigits(t[1..]) then InRange(-(DigitsValue(t[1..]) as int))
    else Err(InvalidSyntax)
  }

  /** Converts the tokens left to right; the first failing token decides. */
  function ParseValues(ts: seq<string>): (r: Result<seq<int32>>)
    ensures r.Ok? <==> forall i :: 0 <= i < |ts| ==> Decimal(ts[i]).Ok?
    ensures r.Ok? ==> |r.value| == |ts| && forall i :: 0 <= i < |ts| ==> Decimal(ts[i]) == Ok(r.value[i])
  {
    if ts == [] then Ok([])
    else
      var init := ts[..|ts| - 1];
      assert forall i :: 0 <= i < |init| ==> init[i] == ts[i];
      match ParseValues(init)
      case Err(e) => Err(e)
      case Ok(vs) =>
        match Decimal(ts[|ts| - 1])
        case Err(e) => Err(e)
        case Ok(v) => Ok(vs + [v])
  }

  /** The dedup step of intset_in, with the capacity bound. */
  function Canonicalize(r: Result<seq<int32>>): Result<seq<int32>> {
    match r
    case Err(e) => Err(e)
    case Ok(vs) => Bounded(Dedup(vs))
  }

  /** What intset_in computes from its text, as written. */
  function ParseSet(s: string): Result<seq<int32>> {
    if !Accepts(s) then Err(InvalidSyntax)
    else Canonicalize(ParseValues(Tokens(Keep(s, false))))
  }

  /** The evidently intended parser: the intended rule, and the sign kept. */
  function ParseSetIntended(s: string): Result<seq<int32>> {
    if !AcceptsIntended(s) then Err(InvalidSyntax)
    else Canonicalize(ParseValues(Tokens(Keep(s, true))))
  }

  // ---------------------------------------------------------------------
  // intset_out

  /** Decimal digits of n, without leading zeros. */
  function NatDigits(n: nat): string {
    if n < 10 then [DigitChar(n)] else NatDigits(n / 10) + [DigitChar(n % 10)]
  }

  /** The decimal digits of n are digits, and their value is n. */
  lemma {:induction false} NatDigitsFacts(n: nat)
    ensures NatDigits(n) != [] && AllDigits(NatDigits(n))
    ensures DigitsValue(NatDigits(n)) == n
  {
    if n >= 10 {
      NatDigitsFacts(n / 10);
      var t := NatDigits(n);
      assert t[..|t| - 1] == NatDigits(n / 10);
    }
  }

  /** sprintf("%d", x). */
  function Show(x: int): string {
    if x < 0 then "-" + NatDigits(-x) else NatDigits(x)
  }

  /** The decimals of xs separated by ", ". */
  function Join(xs: seq<int32>): string {
    if xs == [] then ""
    else if |xs| == 1 then Show(xs[0])
    else Show(xs[0]) + ", " + Join(xs[1..])
  }

  /** The text intset_out produces for stored elements xs. */
  function Render(xs: seq<int32>): string {
    "{" + Join(xs) + "}"
  }

  /** The decimal of every element of xs, in order. */
  function Decimals(xs: seq<int32>): (ws: seq<string>)
    ensures |ws| == |xs|
    ensures forall i :: 0 <= i < |xs| ==> ws[i] == Show(xs[i])
  {
    seq(|xs|, i requires 0 <= i < |xs| => Show(xs[i]))
  }

  /** What intset_out's loop has accumulated after the words ws: each word
      followed by ", ". */
  function Prefix(ws: seq<string>): string {
    if ws == [] then ""
    else Prefix(ws[..|ws| - 1]) + ws[|ws| - 1] + ", "
  }

  // ---------------------------------------------------------------------
  // Lemmas: counting, filtering, tokenising

  lemma {:induction false} CountOfConcat(s: string, t: string, c: char)
    ensures CountOf(s + t, c) == CountOf(s, c) + CountOf(t, c)
  {
    if t != [] {
      assert (s + t)[..|s + t| - 1] == s + t[..|t| - 1];
      assert (s + t)[|s + t| - 1] == t[|t| - 1];
      CountOfConcat(s, t[..|t| - 1], c);
    } else {
      assert s + t == s;
    }
  }

  lemma {:induction false} CountOfAbsent(s: string, c: char)
    requires forall i :: 0 <= i < |s| ==> s[i] != c
    ensures CountOf(s, c) == 0
  {
    if s != [] {
      CountOfAbsent(s[..|s| - 1], c);
    }
  }

  lemma {:induction false} KeepConcat(s: string, t: string, sign: bool)
    ensures Keep(s + t, sign) == Keep(s, sign) + Keep(t, sign)
  {
    if t != [] {
      assert (s + t)[..|s + t| - 1] == s + t[..|t| - 1];
      assert (s + t)[|s + t| - 1] == t[|t| - 1];
      KeepConcat(s, t[..|t| - 1], sign);
    } else {
      assert s + t == s;
    }
  }

  lemma {:induction false} KeepAll(s: string, sign: bool)
    requires forall i :: 0 <= i < |s| ==> Kept(s[i], sign)
    ensures Keep(s, sign) == s
  {
    if s != [] {
      KeepAll(s[..|s| - 1], sign);
    }
  }

  lemma {:induction false} KeepNone(s: string, sign: bool)
    requires forall i :: 0 <= i < |s| ==> !Kept(s[i], sign)
    ensures Keep(s, sign) == []
  {
    if s != [] {
      KeepNone(s[..|s| - 1], sign);
    }
  }

  /** Every token of the as-written filter is a non-empty digit string, so
      atoi sees no sign and no stray character. */
  lemma TokensAreDigits(s: string)
    ensures forall i :: 0 <= i < |Tokens(Keep(s, false))| ==>
              Tokens(Keep(s, false))[i] != [] && AllDigits(Tokens(Keep(s, false))[i])
  {
    var t := Keep(s, false);
    var ts := Tokens(t);
    forall i, k | 0 <= i < |ts| && 0 <= k < |ts[i]| ensures IsDigit(ts[i][k]) {
      assert ts[i][k] in t;
      var m :| 0 <= m < |t| && t[m] == ts[i][k];
      assert Kept(t[m], false);
      assert ts[i][k] != ',' by { assert ts[i][k] in ts[i]; }
    }
  }

  /** Joins non-empty words with single commas. */
  function CommaJoin(ws: seq<string>): string {
    if ws == [] then ""
    else if |ws| == 1 then ws[0]
    else ws[0] + "," + CommaJoin(ws[1..])
  }

  /** strtok undoes a comma join of non-empty, comma-free words. */
  lemma {:induction false} TokensOfCommaJoin(ws: seq<string>)
    requires forall i :: 0 <= i < |ws| ==> ws[i] != [] && ',' !in ws[i]
    ensures Tokens(CommaJoin(ws)) == ws
  {
    if ws != [] {
      var w := ws[0];
      PieceLenOfWord(w, if |ws| == 1 then "" else "," + CommaJoin(ws[1..]));
      if |ws| == 1 {
        assert CommaJoin(ws) == w + "";
        assert w[|w|..] == [];
      } else {
        var rest := CommaJoin(ws[1..]);
        var t := w + "," + rest;
        assert t == w + ("," + rest);
        assert t[|w|..] == "," + rest;
        assert t[|w|..][1..] == rest;
        TokensOfCommaJoin(ws[1..]);
      }
    }
  }

  lemma {:induction false} PieceLenOfWord(w: string, rest: string)
    requires w != [] && ',' !in w
    requires rest == [] || rest[0] == ','
    ensures PieceLen(w + rest) == |w| && (w + rest)[..|w|] == w
  {
    assert (w + rest)[..|w|] == w;
  }

  /** A comma ends the leading piece: what follows it does not matter. */
  lemma {:induction false} PieceLenSep(a: string, b: string)
    ensures PieceLen(a + "," + b) == PieceLen(a)
  {
    if a != [] && a[0] != ',' {
      assert (a + "," + b)[1..] == a[1..] + "," + b;
      PieceLenSep(a[1..], b);
    }
  }

  /** strtok on two texts joined by a comma gives the tokens of the first
      followed by those of the second: no token spans the comma, and an
      empty piece on either side of it yields nothing. */
  lemma {:induction false} TokensSep(a: string, b: string)
    ensures Tokens(a + "," + b) == Tokens(a) + Tokens(b)
    decreases |a|
  {
    var t := a + "," + b;
    if a == [] {
      assert t[1..] == b;
      assert Tokens(t) == Tokens(b);
    } else if a[0] == ',' {
      assert t[1..] == a[1..] + "," + b;
      TokensSep(a[1..], b);
      assert Tokens(t) == Tokens(t[1..]);
    } else {
      var n := PieceLen(a);
      TokensSep(a[n..], b);
      PieceLenSep(a, b);
      SliceSep(a, b, n);
      TokensSepPiece(a, b, t);
    }
  }

  /** The step of TokensSep for a text that starts with a non-empty piece:
      t is a, a comma and b. */
  lemma TokensSepPiece(a: string, b: string, t: string)
    requires a != [] && a[0] != ','
    requires t != [] && t[0] != ',' && PieceLen(t) == PieceLen(a)
    requires t[..PieceLen(a)] == a[..PieceLen(a)] && t[PieceLen(a)..] == a[PieceLen(a)..] + "," + b
    requires Tokens(a[PieceLen(a)..] + "," + b) == Tokens(a[PieceLen(a)..]) + Tokens(b)
    ensures Tokens(t) == Tokens(a) + Tokens(b)
  {
    TokensHead(t);
    TokensHead(a);
  }

  /** strtok's first token of a text that starts with a non-comma. */
  lemma TokensHead(t: string)
    requires t != [] && t[0] != ','
    ensures Tokens(t) == [t[..PieceLen(t)]] + Tokens(t[PieceLen(t)..])
  {
  }

  lemma SliceSep(a: string, b: string, n: nat)
    requires n <= |a|
    ensures (a + "," + b)[..n] == a[..n]
    ensures (a + "," + b)[n..] == a[n..] + "," + b
  {
  }

  // ---------------------------------------------------------------------
  // Lemmas: decimals

  /** What the rendered decimal of x looks like. */
  lemma ShowChars(x: int)
    ensures Show(x) != [] && IsDigit(Show(x)[|Show(x)| - 1])
    ensures IsDigit(Show(x)[0]) || (Show(x)[0] == '-' && |Show(x)| >= 2 && IsDigit(Show(x)[1]))
    ensures forall i :: 0 <= i < |Show(x)| ==> IsDigit(Show(x)[i]) || (i == 0 && Show(x)[i] == '-')
  {
    NatDigitsFacts(if x < 0 then -x else x);
  }

  /** What the filter leaves of a rendered decimal: all of it when '-' is
      kept, its magnitude otherwise. */
  lemma ShowKeep(x: int)
    ensures Keep(Show(x), true) == Show(x)
    ensures Keep(Show(x), false) == NatDigits(if x < 0 then -x else x)
  {
    var w := Show(x);
    ShowChars(x);
    NatDigitsFacts(if x < 0 then -x else x);
    KeepAll(w, true);
    if x < 0 {
      KeepConcat("-", NatDigits(-x), false);
      KeepAll(NatDigits(-x), false);
      assert Keep("-", false) == Keep([], false) + [];
    } else {
      KeepAll(w, false);
    }
  }

  /** atoi reads back what sprintf("%d") wrote. */
  lemma DecimalOfShow(x: int32)
    ensures Decimal(Show(x)) == Ok(x)
  {
    NatDigitsFacts(if x < 0 then -(x as int) else x as int);
    if x < 0 {
      var w := Show(x);
      assert w[1..] == NatDigits(-(x as int));
      assert !AllDigits(w) by { assert !IsDigit(w[0]); }
    }
  }

  // ---------------------------------------------------------------------
  // Lemmas: layout of the rendered text

  /** What intset_out's loop accumulates, followed by the last decimal,
      is the join. */
  lemma JoinLast(xs: seq<int32>)
    requires xs != []
    ensures Join(xs) == Prefix(Decimals(xs[..|xs| - 1])) + Show(xs[|xs| - 1])
  {
    var ws, k := Decimals(xs), |xs| - 1;
    JoinGlue(xs);
    GlueLast(ws);
    DecimalsPrefix(xs, k);
    assert ws[k] == Show(xs[k]);
  }

  /** The decimals of a prefix are a prefix of the decimals. */
  lemma DecimalsPrefix(xs: seq<int32>, k: nat)
    requires k <= |xs|
    ensures Decimals(xs)[..k] == Decimals(xs[..k])
  {
  }

  /** Words separated by ", ". */
  function Glue(ws: seq<string>): string {
    if ws == [] then ""
    else if |ws| == 1 then ws[0]
    else ws[0] + ", " + Glue(ws[1..])
  }

  /** The join is the glue of the decimals. */
  lemma {:induction false} JoinGlue(xs: seq<int32>)
    ensures Join(xs) == Glue(Decimals(xs))
  {
    if |xs| >= 2 {
      JoinGlue(xs[1..]);
      assert Decimals(xs)[1..] == Decimals(xs[1..]);
    }
  }

  /** The accumulated prefix of all words but the last, followed by the
      last, is their glue. */
  lemma {:induction false} GlueLast(ws: seq<string>)
    requires ws != []
    ensures Glue(ws) == Prefix(ws[..|ws| - 1]) + ws[|ws| - 1]
  {
    if |ws| >= 2 {
      var vs := ws[1..];
      GlueLast(vs);
      assert vs[..|vs| - 1] == ws[1..|ws| - 1];
      PrefixCons(ws[0], ws[1..|ws| - 1]);
      assert [ws[0]] + ws[1..|ws| - 1] == ws[..|ws| - 1];
    } else {
      assert ws[..0] == [];
    }
  }

  /** The accumulated prefix of w followed by ws. */
  lemma {:induction false} PrefixCons(w: string, ws: seq<string>)
    ensures Prefix([w] + ws) == w + ", " + Prefix(ws)
  {
    if ws != [] {
      var init, last := ws[..|ws| - 1], ws[|ws| - 1];
      var wws := [w] + ws;
      PrefixCons(w, init);
      assert wws[..|wws| - 1] == [w] + init;
      assert wws[|wws| - 1] == last;
    } else {
      assert ([w] + ws)[..0] == [];
    }
  }

  /** The join starts with the decimal of the first element. */
  lemma JoinStart(xs: seq<int32>)
    requires xs != []
    ensures Show(xs[0]) <= Join(xs)
  {
    var w := Show(xs[0]);
    if |xs| >= 2 {
      var r := ", " + Join(xs[1..]);
      assert Join(xs) == w + r;
      assert (w + r)[..|w|] == w;
    } else {
      assert Join(xs) == w;
    }
  }

  /** A character the join can contain. */
  predicate JoinChar(c: char) {
    IsDigit(c) || c == '-' || c == ',' || c == ' '
  }

  /** Only characters a join can hold, and every blank right after a comma. */
  predicate JoinShape(j: string) {
    && (forall i :: 0 <= i < |j| ==> JoinChar(j[i]))
    && (forall i :: 0 <= i < |j| && j[i] == ' ' ==> i >= 1 && j[i - 1] == ',')
  }

  /** Characters of the join, and where its spaces stand. */
  lemma {:induction false} JoinChars(xs: seq<int32>)
    ensures JoinShape(Join(xs))
  {
    if xs != [] {
      ShowChars(xs[0]);
      var w := Show(xs[0]);
      if |xs| == 1 {
        assert Join(xs) == w;
      } else {
        var r := Join(xs[1..]);
        JoinChars(xs[1..]);
        JoinCharsStep(w, r);
        assert Join(xs) == w + ", " + r;
      }
    }
  }

  lemma JoinCharsStep(w: string, r: string)
    requires forall i :: 0 <= i < |w| ==> IsDigit(w[i]) || (i == 0 && w[i] == '-')
    requires JoinShape(r)
    ensures JoinShape(w + ", " + r)
  {
    var j := w + ", " + r;
    forall i | 0 <= i < |j| ensures JoinChar(j[i]) && (j[i] == ' ' ==> i >= 1 && j[i - 1] == ',') {
      if i < |w| {
        assert j[i] == w[i];
      } else if i == |w| {
        assert j[i] == ',';
      } else if i == |w| + 1 {
        assert j[i] == ' ' && j[i - 1] == ',';
      } else {
        assert j[i] == r[i - |w| - 2];
        if i > |w| + 2 {
          assert j[i - 1] == r[i - |w| - 3];
        }
      }
    }
  }

  lemma RenderBraces(xs: seq<int32>)
    ensures CountOf(Render(xs), '{') == 1 && CountOf(Render(xs), '}') == 1
  {
    JoinChars(xs);
    var j := Join(xs);
    CountOfAbsent(j, '{');
    CountOfAbsent(j, '}');
    CountOfConcat("{", j, '{');
    CountOfConcat("{" + j, "}", '{');
    CountOfConcat("{", j, '}');
    CountOfConcat("{" + j, "}", '}');
    assert CountOf("{", '{') == 1 && CountOf("}", '}') == 1 by {
      assert "{"[..0] == [] && "}"[..0] == [];
    }
  }

  /** Every rendered value passes the character and brace checks. */
  lemma RenderChars(xs: seq<int32>)
    ensures forall k :: 0 <= k < |Render(xs)| ==> Allowed(Render(xs)[k])
    ensures CountOf(Render(xs), '{') == 1 && CountOf(Render(xs), '}') == 1
  {
    JoinChars(xs);
    RenderBraces(xs);
    var s, j := Render(xs), Join(xs);
    forall k | 0 <= k < |s| ensures Allowed(s[k]) {
      if 0 < k < |s| - 1 {
        assert s[k] == j[k - 1];
      }
    }
  }

  /** A string without blanks never has a digit in a gap. */
  lemma NoSpaceNoGap(s: string)
    requires forall i :: 0 <= i < |s| ==> s[i] != ' '
    ensures forall k :: 0 <= k < |s| ==> !GapAt(s, k)
  {
  }

  // ---------------------------------------------------------------------
  // Round trips

  /** The filtered copy of a rendered value is the comma join of the
      decimals, each as the filter leaves it. */
  function KeptWords(xs: seq<int32>, sign: bool): (ws: seq<string>)
    ensures |ws| == |xs|
    ensures forall i :: 0 <= i < |xs| ==> ws[i] == Keep(Show(xs[i]), sign)
  {
    if xs == [] then [] else [Keep(Show(xs[0]), sign)] + KeptWords(xs[1..], sign)
  }

  lemma {:induction false} KeepJoin(xs: seq<int32>, sign: bool)
    ensures Keep(Join(xs), sign) == CommaJoin(KeptWords(xs, sign))
  {
    if |xs| >= 2 {
      KeepJoin(xs[1..], sign);
      KeepConcat(Show(xs[0]), ", ", sign);
      KeepConcat(Show(xs[0]) + ", ", Join(xs[1..]), sign);
      assert Keep(", ", sign) == "," by {
        assert ", "[..1] == ",";
        assert ","[..0] == [];
      }
      assert KeptWords(xs, sign)[1..] == KeptWords(xs[1..], sign);
    }
  }

  /** The filter drops the braces of a rendering. */
  lemma KeepRender(xs: seq<int32>, sign: bool)
    ensures Keep(Render(xs), sign) == Keep(Join(xs), sign)
  {
    KeepConcat("{", Join(xs), sign);
    KeepConcat("{" + Join(xs), "}", sign);
    assert Keep("{", sign) == [] && Keep("}", sign) == [] by {
      assert "{"[..0] == [] && "}"[..0] == [];
    }
  }

  /** The filtered decimals are non-empty and comma-free. */
  lemma KeptWordsShape(xs: seq<int32>, sign: bool)
    ensures forall i :: 0 <= i < |xs| ==> KeptWords(xs, sign)[i] != [] && ',' !in KeptWords(xs, sign)[i]
  {
    forall i | 0 <= i < |xs| ensures KeptWords(xs, sign)[i] != [] && ',' !in KeptWords(xs, sign)[i] {
      KeptShowShape(xs[i], sign);
    }
  }

  /** The filtered decimal of x is a non-empty word without commas. */
  lemma KeptShowShape(x: int32, sign: bool)
    ensures Keep(Show(x), sign) != [] && ',' !in Keep(Show(x), sign)
  {
    if sign {
      assert Keep(Show(x), true) == Show(x) by {
        ShowKeep(x);
      }
      ShowChars(x);
      NumeralNoComma(Show(x));
    } else {
      var m: nat := if x < 0 then -(x as int) else x as int;
      assert Keep(Show(x), false) == NatDigits(m) by {
        ShowKeep(x);
      }
      NatDigitsFacts(m);
      NumeralNoComma(NatDigits(m));
    }
  }

  /** A rendered decimal or digit string holds no comma. */
  lemma NumeralNoComma(w: string)
    requires forall i :: 0 <= i < |w| ==> IsDigit(w[i]) || w[i] == '-'
    ensures ',' !in w
  {
  }

  /** Splitting the filtered rendering of xs gives back one token per element. */
  lemma TokensOfRender(xs: seq<int32>, sign: bool)
    ensures Tokens(Keep(Render(xs), sign)) == KeptWords(xs, sign)
  {
    KeepRender(xs, sign);
    KeepJoin(xs, sign);
    KeptWordsShape(xs, sign);
    TokensOfCommaJoin(KeptWords(xs, sign));
  }

  /** The first failing token decides: once a prefix of the tokens fails,
      the whole list fails the same way. */
  lemma {:induction false} ValuesPrefixError(ts: seq<string>, k: nat)
    requires k <= |ts| && ParseValues(ts[..k]).Err?
    ensures ParseValues(ts) == ParseValues(ts[..k])
  {
    if k < |ts| {
      var init := ts[..|ts| - 1];
      assert init[..k] == ts[..k];
      ValuesPrefixError(init, k);
    } else {
      assert ts[..k] == ts;
    }
  }
}
