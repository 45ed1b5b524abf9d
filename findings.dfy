/** Concrete inputs on which the C code goes wrong, each next to the member
    of the model that behaves as evidently intended. */
module Findings {
  import opened Common
  import opened SetSpec
  import opened Text
  import opened TextFacts
  import Wire

  // ---------------------------------------------------------------------
  // is_valid_input refuses intset_out's own output

  /** intset_out writes "{1, 2}" for the elements 1, 2. */
  lemma RenderOneTwo()
    ensures Render([1, 2]) == "{1, 2}"
  {
    assert Show(1) == "1" && Show(2) == "2";
    assert Join([1, 2]) == Show(1) + ", " + Show(2) by {
      assert [1, 2][1..] == [2];
    }
  }

  /** That text is refused by the validator; the intended parser reads it
      back. */
  lemma OwnOutputRejected()
    ensures ParseSet(Render([1, 2])) == Err(InvalidSyntax)
    ensures ParseSetIntended(Render([1, 2])) == Ok([1, 2])
  {
    RenderRejected([1, 2]);
    RenderParseIntended([1, 2]);
  }

  // ---------------------------------------------------------------------
  // the '-' is accepted but never parsed

  /** intset_out writes "{-5}" for the element -5. */
  lemma RenderMinusFive()
    ensures Render([-5]) == "{-5}"
  {
    assert Show(-5) == "-5";
  }

  /** That text passes the validator and is read as 5; the intended parser
      keeps the sign. */
  lemma SignDropped()
    ensures ParseSet(Render([-5])) == Ok([5])
    ensures ParseSetIntended(Render([-5])) == Ok([-5])
  {
    RenderSingleton(-5);
    RenderParseIntended([-5]);
  }

  // ---------------------------------------------------------------------
  // intset_in's token array holds MAX tokens, not MAX elements

  /** Accepted text with more tokens than intset_in's local array `arr` has
      slots: the conversion loop writes past its end. */
  predicate TokenArrayOverflows(s: string) {
    Accepts(s) && |TokensOf(s)| > MAX
  }

  /** n copies of the token "1". */
  function Ones(n: nat): seq<string> {
    seq(n, _ => "1")
  }

  /** "{1,1,...,1}" with n ones. */
  function OnesText(n: nat): string {
    "{" + CommaJoin(Ones(n)) + "}"
  }

  /** The text of n ones is accepted, has n tokens and denotes {1}: with
      n > MAX the C code overruns its token array, although the set fits
      easily. */
  lemma ManyTokensOneValue(n: nat)
    requires n >= 1
    ensures Accepts(OnesText(n)) && |TokensOf(OnesText(n))| == n
    ensures n > MAX ==> TokenArrayOverflows(OnesText(n))
    ensures ParseSet(OnesText(n)) == Ok([1])
  {
    var ws := Ones(n);
    var t := CommaJoin(ws);
    OnesChars(ws);
    BracedAccepted(t);
    KeepBraced(t);
    TokensOfCommaJoin(ws);
    assert TokensOf(OnesText(n)) == ws;
    OnesValues(n);
    DedupSame(n, 1);
  }

  /** Each token "1" converts to 1. */
  lemma OnesValues(n: nat)
    ensures ParseValues(Ones(n)) == Ok(seq(n, _ => 1 as int32))
  {
    assert Decimal("1") == Ok(1) by {
      assert "1"[..0] == [];
    }
    ValuesPointwise(Ones(n), seq(n, _ => 1 as int32));
  }

  /** A comma join of ones holds only ones and commas. */
  lemma {:induction false} OnesChars(ws: seq<string>)
    requires forall i :: 0 <= i < |ws| ==> ws[i] == "1"
    ensures forall k :: 0 <= k < |CommaJoin(ws)| ==> CommaJoin(ws)[k] == '1' || CommaJoin(ws)[k] == ','
  {
    if |ws| >= 2 {
      OnesChars(ws[1..]);
      var r := CommaJoin(ws[1..]);
      assert CommaJoin(ws) == "1," + r;
      forall k | 0 <= k < |CommaJoin(ws)|
        ensures CommaJoin(ws)[k] == '1' || CommaJoin(ws)[k] == ','
      {
        if k >= 2 {
          assert CommaJoin(ws)[k] == r[k - 2];
        }
      }
    }
  }

  /** Braces around text made of ones and commas pass the validator. */
  lemma BracedAccepted(t: string)
    requires forall k :: 0 <= k < |t| ==> t[k] == '1' || t[k] == ','
    ensures Accepts("{" + t + "}")
  {
    var s := "{" + t + "}";
    forall k | 0 <= k < |s| ensures Allowed(s[k]) && s[k] != ' ' {
      if 0 < k < |s| - 1 {
        assert s[k] == t[k - 1];
      }
    }
    NoSpaceNoGap(s);
    CountOfAbsent(t, '{');
    CountOfAbsent(t, '}');
    CountOfConcat("{", t, '{');
    CountOfConcat("{" + t, "}", '{');
    CountOfConcat("{", t, '}');
    CountOfConcat("{" + t, "}", '}');
    assert CountOf("{", '{') == 1 && CountOf("}", '}') == 1 by {
      assert "{"[..0] == [] && "}"[..0] == [];
    }
  }

  /** The filter keeps all of a digit-and-comma text and drops its braces. */
  lemma KeepBraced(t: string)
    requires forall k :: 0 <= k < |t| ==> t[k] == '1' || t[k] == ','
    ensures Keep("{" + t + "}", false) == t
  {
    KeepConcat("{", t, false);
    KeepConcat("{" + t, "}", false);
    KeepAll(t, false);
    KeepNone("{", false);
    KeepNone("}", false);
  }

  /** Any number of copies of a value collapse to that one value. */
  lemma {:induction false} DedupSame(n: nat, x: int32)
    requires n >= 1
    ensures Dedup(seq(n, _ => x)) == [x]
  {
    var xs := seq(n, _ => x);
    if n == 1 {
      assert xs[..0] == [];
    } else {
      DedupSame(n - 1, x);
      assert xs[..n - 1] == seq(n - 1, _ => x);
    }
  }

  // ---------------------------------------------------------------------
  // intset_union and intset_disjunction can need more than MAX slots

  /** The values lo, lo + 1, ..., lo + n - 1. */
  function Run(lo: nat, n: nat): (xs: seq<int32>)
    requires lo + n <= INT32_MAX
    ensures |xs| == n && NoDups(xs)
    ensures forall x :: x in xs ==> lo <= x < lo + n
  {
    seq(n, i requires 0 <= i < n => (lo + i) as int32)
  }

  /** Two disjoint sets of 300 elements each: both fit, their union and
      their symmetric difference (600 elements) do not, and the C loops
      write past result->arr[MAX - 1]. */
  lemma UnionOverflows()
    ensures var a, b := Run(0, 300), Run(300, 300);
      && |a| <= MAX && |b| <= MAX
      && |SetSpec.Union(a, b)| == 600 && |SetSpec.Disjunction(a, b)| == 600
      && Bounded(SetSpec.Union(a, b)) == Err(CapacityExceeded)
      && Bounded(SetSpec.Disjunction(a, b)) == Err(CapacityExceeded)
  {
    var a, b := Run(0, 300), Run(300, 300);
    SelectAll(a, b, false);
    SelectAll(b, a, false);
  }

  // ---------------------------------------------------------------------
  // intset_recv trusts the count in the message

  /** A message announcing 501 elements (and carrying them) makes the C loop
      write past arr[MAX - 1]; one announcing -1 gives a set whose
      cardinality is -1. The model refuses both. */
  lemma RecvTrustsHeader()
    ensures var m := Wire.WordBytes(501) + Wire.Words(seq(501, _ => 0));
      Wire.HeaderCount(m) == 501 && |m| == 4 + 4 * 501 && Wire.Decode(m) == Err(CapacityExceeded)
    ensures Wire.HeaderCount(Wire.WordBytes(-1)) == -1
    ensures Wire.Decode(Wire.WordBytes(-1)) == Err(NegativeCount)
  {
    var m := Wire.WordBytes(501) + Wire.Words(seq(501, _ => 0));
    Wire.WordRoundTrip(501);
    Wire.WordRoundTrip(-1);
    assert m[..4] == Wire.WordBytes(501);
    assert Wire.WordBytes(-1)[..4] == Wire.WordBytes(-1);
  }

  // ---------------------------------------------------------------------
  // intset_out's fixed buffers

  /** Whether the rendering of xs, without its braces and with its
      terminating NUL, fits intset_out's `char temp[128]`. */
  predicate TempFits(xs: seq<int32>) {
    |Join(xs)| + 1 <= 128
  }

  /** Every decimal takes at least one character and every separator two. */
  lemma {:induction false} JoinLength(xs: seq<int32>)
    requires xs != []
    ensures |Join(xs)| >= 3 * |xs| - 2
  {
    ShowChars(xs[0]);
    if |xs| >= 2 {
      JoinLength(xs[1..]);
    }
  }

  /** Any set of 44 or more elements (well below MAX) overruns `temp`. */
  lemma TempOverflows(xs: seq<int32>)
    requires |xs| >= 44
    ensures !TempFits(xs)
  {
    JoinLength(xs);
  }

  /** Whether sprintf("%d", x), with its NUL, fits `char numstr[10]`. */
  predicate NumstrFits(x: int32) {
    |Show(x)| + 1 <= 10
  }

  function Pow10(k: nat): nat {
    if k == 0 then 1 else 10 * Pow10(k - 1)
  }

  /** A number of at least 10^k has more than k digits. */
  lemma {:induction false} DigitsAtLeast(n: nat, k: nat)
    requires n >= Pow10(k)
    ensures |NatDigits(n)| > k
  {
    if k > 0 {
      DigitsAtLeast(n / 10, k - 1);
    }
  }

  /** Every value with ten digits, INT_MIN among them, and every negative
      value with nine digits, whose '-' takes the tenth byte, overruns
      `numstr`. */
  lemma NumstrOverflows(x: int32)
    requires x >= 1_000_000_000 || x <= -100_000_000
    ensures !NumstrFits(x)
  {
    if x < 0 {
      assert Pow10(8) == 100_000_000;
      DigitsAtLeast(-(x as int), 8);
    } else {
      assert Pow10(9) == 1_000_000_000;
      DigitsAtLeast(x as int, 9);
    }
  }
}
