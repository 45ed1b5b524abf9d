/** What the text format promises and where the validator and the parser
    of intset_in break those promises: the properties of ParseSet, the fate
    of intset_out's own output, and the round trip of the intended parser. */
module TextFacts {
  import opened Common
  import opened SetSpec
  import opened Text

  /** The tokens intset_in converts for input s. */
  function TokensOf(s: string): seq<string> {
    Tokens(Keep(s, false))
  }

  // ---------------------------------------------------------------------
  // intset_in as written

  /** Every token converts (atoi sees a non-empty digit string) unless its
      value exceeds INT32_MAX, and every converted value is non-negative. */
  lemma {:induction false} ValuesOfTokens(s: string)
    ensures ParseValues(TokensOf(s)).Err? ==> ParseValues(TokensOf(s)).error == NumberOutOfRange
    ensures ParseValues(TokensOf(s)).Ok? ==> forall x :: x in ParseValues(TokensOf(s)).value ==> x >= 0
  {
    var ts := TokensOf(s);
    TokensAreDigits(s);
    if ParseValues(ts).Err? {
      var i :| 0 <= i < |ts| && Decimal(ts[i]).Err?;
      assert Decimal(ts[i]).error == NumberOutOfRange;
      FirstErrorOutOfRange(ts);
    } else {
      var vs := ParseValues(ts).value;
      forall x | x in vs ensures x >= 0 {
        var i :| 0 <= i < |vs| && vs[i] == x;
        assert Decimal(ts[i]) == Ok(vs[i]);
      }
    }
  }

  /** When every failing token fails with NumberOutOfRange, so does the whole list. */
  lemma {:induction false} FirstErrorOutOfRange(ts: seq<string>)
    requires forall i :: 0 <= i < |ts| && Decimal(ts[i]).Err? ==> Decimal(ts[i]).error == NumberOutOfRange
    ensures ParseValues(ts).Err? ==> ParseValues(ts).error == NumberOutOfRange
  {
    if ts != [] {
      var init := ts[..|ts| - 1];
      assert forall i :: 0 <= i < |init| ==> init[i] == ts[i];
      FirstErrorOutOfRange(init);
    }
  }

  /** The properties of intset_in's result: InvalidSyntax exactly when the
      validator rejects; otherwise no duplicates, at most MAX and at most one
      element per token, the same values as the tokens, in first-occurrence
      order, and no negative value (the '-' never reaches atoi). */
  lemma ParseSetFacts(s: string)
    ensures ParseSet(s) == Err(InvalidSyntax) <==> !Accepts(s)
    ensures '-' !in Keep(s, false)
    ensures ParseSet(s).Ok? ==>
      var vs, r := ParseValues(TokensOf(s)).value, ParseSet(s).value;
      && NoDups(r) && |r| <= MAX && |r| <= |TokensOf(s)|
      && (forall x :: x in r <==> x in vs)
      && (forall x :: x in r ==> x >= 0)
      && (forall i, j :: 0 <= i < j < |r| ==> FirstIndex(vs, r[i]) < FirstIndex(vs, r[j]))
  {
    ValuesOfTokens(s);
    if ParseSet(s).Ok? {
      var vs := ParseValues(TokensOf(s)).value;
      DedupFacts(vs);
      forall i, j | 0 <= i < j < |Dedup(vs)| ensures FirstIndex(vs, Dedup(vs)[i]) < FirstIndex(vs, Dedup(vs)[j]) {
        DedupOrder(vs, i, j);
      }
    }
  }

  /** Accepted text with no digit and no comma, such as "{}", is the empty set. */
  lemma NoDigitsNoElements(s: string)
    requires Accepts(s)
    requires forall i :: 0 <= i < |s| ==> !IsDigit(s[i]) && s[i] != ','
    ensures ParseSet(s) == Ok([])
  {
    KeepNone(s, false);
  }

  /** strtok skips empty pieces: runs of commas yield no token. */
  lemma EmptyPiecesSkipped(ws: seq<string>, n: nat)
    requires forall i :: 0 <= i < |ws| ==> ws[i] != [] && ',' !in ws[i]
    ensures Tokens(Commas(n) + CommaJoin(ws)) == ws
  {
    TokensAfterCommas(n, CommaJoin(ws));
    TokensOfCommaJoin(ws);
  }

  /** strtok skips empty pieces wherever they are: a run of two commas
      between two texts, a trailing comma and a leading comma yield no
      token. */
  lemma EmptyPiecesAnywhere(a: string, b: string)
    ensures Tokens(a + ",," + b) == Tokens(a) + Tokens(b)
    ensures Tokens(a + ",") == Tokens(a)
    ensures Tokens("," + b) == Tokens(b)
  {
    assert a + ",," + b == a + "," + ("," + b);
    TokensSep(a, "," + b);
    TokensSep("", b);
    assert "" + "," + b == "," + b;
    TokensSep(a, "");
    assert a + "," + "" == a + ",";
  }

  function Commas(n: nat): string {
    if n == 0 then "" else "," + Commas(n - 1)
  }

  lemma {:induction false} TokensAfterCommas(n: nat, t: string)
    ensures Tokens(Commas(n) + t) == Tokens(t)
  {
    if n > 0 {
      var u := Commas(n) + t;
      assert u == "," + (Commas(n - 1) + t);
      assert u[1..] == Commas(n - 1) + t;
      TokensAfterCommas(n - 1, t);
    } else {
      assert Commas(0) + t == t;
    }
  }

  // ---------------------------------------------------------------------
  // What happens to intset_out's text

  /** is_valid_input accepts a rendering exactly when it has at most one
      element: the ", " that intset_out writes between two elements puts a
      digit after a space with no comma since that space. */
  lemma RenderAcceptance(xs: seq<int32>)
    ensures Accepts(Render(xs)) <==> |xs| <= 1
  {
    RenderChars(xs);
    var s := Render(xs);
    if |xs| <= 1 {
      if xs == [] {
        assert s == "{}";
      } else {
        ShowChars(xs[0]);
        assert Join(xs) == Show(xs[0]);
        forall i | 0 <= i < |s| ensures s[i] != ' ' {
          if 0 < i < |s| - 1 {
            assert s[i] == Show(xs[0])[i - 1];
          }
        }
      }
      NoSpaceNoGap(s);
    } else {
      RenderGap(xs);
    }
  }

  /** A digit after ", " with nothing but digits, '-' and braces before the
      comma is a rejected position. */
  lemma GapAfterCommaSpace(s: string, p: nat, k: nat)
    requires 0 < p && p + 2 <= k < |s|
    requires IsDigit(s[p - 1]) && s[p] == ',' && s[p + 1] == ' ' && IsDigit(s[k])
    requires forall i :: 0 <= i < p ==> s[i] != ',' && s[i] != ' '
    requires forall i :: p + 2 <= i < k ==> s[i] != ','
    ensures GapAt(s, k)
  {
    assert SpaceAfterDigit(s, p + 1);
    forall c | 0 <= c < k && s[c] == ',' ensures !SpaceNoted(s, c) {
      assert c == p;
    }
  }

  /** The shape of a rendered decimal: digits, an optional leading '-', and a
      digit at the end. */
  predicate Numeral(w: string) {
    && w != [] && IsDigit(w[|w| - 1])
    && forall i :: 0 <= i < |w| ==> IsDigit(w[i]) || (i == 0 && w[i] == '-')
  }

  /** "{" w0 ", " w1 ... "}" has a rejected position at the first digit of w1. */
  lemma GapInLayout(w0: string, w1: string, r: string)
    requires Numeral(w0) && Numeral(w1) && w1 <= r
    ensures var s := "{" + w0 + ", " + r + "}";
      exists k :: 0 <= k < |s| && GapAt(s, k)
  {
    var s := "{" + w0 + ", " + r + "}";
    var p := 1 + |w0|;
    forall i | 0 <= i < p ensures s[i] != ',' && s[i] != ' ' {
      if i > 0 {
        assert s[i] == w0[i - 1];
      }
    }
    assert s[p - 1] == w0[|w0| - 1];
    assert s[p] == ',' && s[p + 1] == ' ';
    assert forall i :: 0 <= i < |w1| ==> s[p + 2 + i] == w1[i];
    var k := if IsDigit(w1[0]) then p + 2 else p + 3;
    GapAfterCommaSpace(s, p, k);
  }

  /** The rejected position in the rendering of two or more elements. */
  lemma RenderGap(xs: seq<int32>)
    requires |xs| >= 2
    ensures exists k :: 0 <= k < |Render(xs)| && GapAt(Render(xs), k)
  {
    ShowChars(xs[0]);
    ShowChars(xs[1]);
    JoinStart(xs[1..]);
    assert Render(xs) == "{" + Show(xs[0]) + ", " + Join(xs[1..]) + "}";
    GapInLayout(Show(xs[0]), Show(xs[1]), Join(xs[1..]));
  }

  /** The intended rule accepts every rendering. */
  lemma RenderAcceptedIntended(xs: seq<int32>)
    ensures AcceptsIntended(Render(xs))
  {
    RenderChars(xs);
    JoinChars(xs);
    var s, jn := Render(xs), Join(xs);
    forall d, j, k | 0 <= d < j < k < |s| && IsDigit(s[d]) && s[j] == ' ' && IsDigit(s[k])
      ensures exists c :: d < c < k && s[c] == ','
    {
      assert s[j] == jn[j - 1];
      assert s[j - 1] == jn[j - 2];
      assert s[j - 1] == ',';
    }
  }

  /** Converting the filtered decimals of xs, sign kept, gets xs back. */
  lemma ValuesOfKeptWords(xs: seq<int32>)
    ensures ParseValues(KeptWords(xs, true)) == Ok(xs)
  {
    var ws := KeptWords(xs, true);
    forall i | 0 <= i < |xs| ensures Decimal(ws[i]) == Ok(xs[i]) {
      ShowKeep(xs[i]);
      DecimalOfShow(xs[i]);
    }
    ValuesPointwise(ws, xs);
  }

  /** Tokens that convert one by one to xs convert together to xs. */
  lemma ValuesPointwise(ws: seq<string>, xs: seq<int32>)
    requires |ws| == |xs|
    requires forall i :: 0 <= i < |xs| ==> Decimal(ws[i]) == Ok(xs[i])
    ensures ParseValues(ws) == Ok(xs)
  {
    assert forall i :: 0 <= i < |ws| ==> Decimal(ws[i]).Ok?;
    var vs := ParseValues(ws).value;
    assert forall i :: 0 <= i < |xs| ==> Ok(vs[i]) == Ok(xs[i]);
    assert vs == xs;
  }

  /** The intended text round trip: every canonical value renders to text
      that the intended parser reads back exactly, order included. */
  lemma RenderParseIntended(xs: seq<int32>)
    requires NoDups(xs) && |xs| <= MAX
    ensures ParseSetIntended(Render(xs)) == Ok(xs)
  {
    RenderAcceptedIntended(xs);
    TokensOfRender(xs, true);
    ValuesOfKeptWords(xs);
    DedupOfNoDups(xs);
  }

  /** Every value the intended parser produces survives rendering and
      parsing again. */
  lemma ParseRenderParseIntended(s: string)
    requires ParseSetIntended(s).Ok?
    ensures ParseSetIntended(Render(ParseSetIntended(s).value)) == ParseSetIntended(s)
  {
    var vs := ParseValues(Tokens(Keep(s, true))).value;
    DedupFacts(vs);
    RenderParseIntended(ParseSetIntended(s).value);
  }

  /** As written, a rendering with two or more elements is refused. */
  lemma RenderRejected(xs: seq<int32>)
    requires |xs| >= 2
    ensures ParseSet(Render(xs)) == Err(InvalidSyntax)
  {
    RenderAcceptance(xs);
  }

  /** As written, a one-element rendering is read back up to its sign; the
      smallest int32 does not come back at all, its magnitude overflows. */
  lemma RenderSingleton(x: int32)
    ensures x != -0x8000_0000 ==> ParseSet(Render([x])) == Ok([if x < 0 then -x else x])
    ensures x == -0x8000_0000 ==> ParseSet(Render([x])) == Err(NumberOutOfRange)
  {
    var s := Render([x]);
    var m: nat := if x < 0 then -(x as int) else x as int;
    assert ParseSet(s) == Canonicalize(ParseValues(TokensOf(s))) by {
      RenderAcceptance([x]);
    }
    assert TokensOf(s) == [NatDigits(m)] by {
      TokensOfRender([x], false);
      ShowKeep(x);
    }
    OneMagnitude(m);
  }

  /** Reading back the single decimal of a magnitude m. */
  lemma OneMagnitude(m: nat)
    ensures m <= INT32_MAX ==> Canonicalize(ParseValues([NatDigits(m)])) == Ok([m as int32])
    ensures m > INT32_MAX ==> Canonicalize(ParseValues([NatDigits(m)])) == Err(NumberOutOfRange)
  {
    var ws := [NatDigits(m)];
    NatDigitsFacts(m);
    assert Decimal(ws[0]) == InRange(m);
    if m <= INT32_MAX {
      ValuesPointwise(ws, [m as int32]);
      assert Dedup([m as int32]) == [m as int32] by {
        assert [m as int32][..0] == [];
      }
    }
  }
}
