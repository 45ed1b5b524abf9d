/** The Intset value of the extension: a count and a fixed array of MAX
    ints, with one method per entry point of intset.c (text input and
    output, binary send and receive, and the set operations). Every method
    is proved against the specification functions of SetSpec, Text and
    Wire. */
module Intsets {
  import opened Common
  import opened SetSpec
  import opened Text
  import Wire

  /** The C struct intset: `num` used slots of `arr[MAX]`. */
  class Intset {
    var num: int
    const arr: array<int32>

    predicate Valid()
      reads this
    {
      arr.Length == MAX && 0 <= num <= MAX
    }

    /** The stored elements, in slot order. */
    function Elements(): seq<int32>
      reads this, arr
      requires Valid()
    {
      arr[..num]
    }

    /** A freshly allocated (palloc) Intset with num set to 0. */
    constructor ()
      ensures Valid() && num == 0 && fresh(arr)
    {
      num := 0;
      arr := new int32[MAX];
    }

    /** `arr[num++] = x`: the append every builder in intset.c performs. */
    method Append(x: int32)
      requires Valid() && num < MAX
      modifies this, arr
      ensures Valid() && Elements() == old(Elements()) + [x]
    {
      arr[num] := x;
      num := num + 1;
    }

    /** The first loop of intset_union: every element of src, in order. */
    method AppendAll(src: Intset)
      requires Valid() && src.Valid() && src != this && src.arr != arr
      requires num + src.num <= MAX
      modifies this, arr
      ensures Valid() && Elements() == old(Elements()) + src.Elements()
    {
      ghost var start := Elements();
      var i := 0;
      while i < src.num
        invariant 0 <= i <= src.num
        invariant Valid() && Elements() == start + src.arr[..i]
      {
        assert src.arr[..i + 1] == src.arr[..i] + [src.arr[i]];
        Append(src.arr[i]);
        i := i + 1;
      }
    }

    /** One step of every builder loop: scan other for x and append x when
        `(x in other) == keep`; fails, writing nothing, when x is due but
        all MAX slots are taken. */
    method Offer(x: int32, other: Intset, keep: bool) returns (ok: bool)
      requires Valid() && other.Valid() && other != this && other.arr != arr
      modifies this, arr
      ensures Valid()
      ensures ok ==> Elements() == old(Elements()) + (if (x in other.Elements()) == keep then [x] else [])
      ensures !ok ==> old(num) == MAX && (x in other.Elements()) == keep
      ensures !ok ==> Elements() == old(Elements())
    {
      var found := Contains(x, other);
      if found == keep {
        if num == MAX {
          return false;
        }
        Append(x);
      }
      return true;
    }

    /** One step of AppendSelect: offers element i of src, whose elements
        are sa, against other, whose elements are ob. */
    method OfferNext(src: Intset, other: Intset, keep: bool, i: nat,
                     ghost start: seq<int32>, ghost sa: seq<int32>, ghost ob: seq<int32>)
        returns (ok: bool)
      requires Valid() && src.Valid() && other.Valid()
      requires src != this && other != this && src.arr != arr && other.arr != arr
      requires src.Elements() == sa && other.Elements() == ob
      requires i < |sa| && Elements() == start + Select(sa[..i], ob, keep)
      modifies this, arr
      ensures Valid() && src.Elements() == sa && other.Elements() == ob
      ensures ok ==> Elements() == start + Select(sa[..i + 1], ob, keep)
      ensures !ok ==> |start + Select(sa, ob, keep)| > MAX
    {
      assert src.arr[i] == sa[i];
      ok := Offer(src.arr[i], other, keep);
      assert src.Elements() == sa && other.Elements() == ob;
      if !ok {
        SelectOverflow(start, sa, ob, keep, i);
      } else {
        SelectStep(sa, ob, keep, i);
        ConcatAssoc(start, Select(sa[..i], ob, keep), if (sa[i] in ob) == keep then [sa[i]] else []);
      }
    }

    /** Appends, in src's order, the elements x of src for which
        `(x in other) == keep`; fails, as soon as an append would need slot
        MAX, on exactly the inputs whose result does not fit. */
    method AppendSelect(src: Intset, other: Intset, keep: bool) returns (ok: bool)
      requires Valid() && src.Valid() && other.Valid()
      requires src != this && other != this && src.arr != arr && other.arr != arr
      modifies this, arr
      ensures Valid()
      ensures ok ==> Elements() == old(Elements()) + Select(src.Elements(), other.Elements(), keep)
      ensures !ok ==> |old(Elements()) + Select(src.Elements(), other.Elements(), keep)| > MAX
    {
      ghost var start, sa, ob := Elements(), src.Elements(), other.Elements();
      var i := 0;
      while i < src.num
        invariant 0 <= i <= src.num == |sa|
        invariant Valid() && src.Valid() && other.Valid()
        invariant src.Elements() == sa && other.Elements() == ob
        invariant Elements() == start + Select(sa[..i], ob, keep)
      {
        ok := OfferNext(src, other, keep, i, start, sa, ob);
        if !ok {
          assert src.Elements() == sa && other.Elements() == ob;
          return;
        }
        i := i + 1;
      }
      assert sa[..i] == sa;
      assert Elements() == start + Select(sa, ob, keep);
      return true;
    }

    // -------------------------------------------------------------------
    // Scans

    /** intset_contains: whether x occurs among the stored elements (the
        same scan, without early exit, decides `found` inside every set
        operation). */
    static method Contains(x: int32, s: Intset) returns (found: bool)
      requires s.Valid()
      ensures found <==> x in s.Elements()
    {
      found := false;
      var i := 0;
      while i < s.num
        invariant 0 <= i <= s.num
        invariant found <==> x in s.arr[..i]
      {
        assert s.arr[..i + 1] == s.arr[..i] + [s.arr[i]];
        if x == s.arr[i] {
          found := true;
        }
        i := i + 1;
      }
    }

    /** The inner loop of intset_equal and intset_subset: the number of
        slots of s holding x. */
    static method Occurrences(x: int32, s: Intset) returns (n: nat)
      requires s.Valid()
      ensures n == CountIn(s.Elements(), x)
      ensures NoDups(s.Elements()) ==> (n == 1 <==> x in s.Elements()) && n <= 1
    {
      n := 0;
      var i := 0;
      while i < s.num
        invariant 0 <= i <= s.num
        invariant n == CountIn(s.arr[..i], x)
      {
        assert s.arr[..i + 1][..i] == s.arr[..i];
        if x == s.arr[i] {
          n := n + 1;
        }
        i := i + 1;
      }
      assert s.arr[..s.num] == s.Elements();
      if NoDups(s.Elements()) {
        CountInNoDups(s.Elements(), x);
      }
    }

    /** The counter numFoundinB of intset_equal and intset_subset after the
        nested loops: the number of pairs of equal slots of a and b. */
    static method CountMatches(a: Intset, b: Intset) returns (n: nat)
      requires a.Valid() && b.Valid()
      ensures n == Matches(a.Elements(), b.Elements())
      ensures NoDups(b.Elements()) ==> n == |Select(a.Elements(), b.Elements(), true)|
    {
      n := 0;
      var i := 0;
      while i < a.num
        invariant 0 <= i <= a.num
        invariant n == Matches(a.arr[..i], b.Elements())
      {
        assert a.arr[..i + 1][..i] == a.arr[..i];
        var c := Occurrences(a.arr[i], b);
        n := n + c;
        i := i + 1;
      }
      assert a.arr[..a.num] == a.Elements();
      if NoDups(b.Elements()) {
        MatchesNoDups(a.Elements(), b.Elements());
      }
    }

    /** intset_cardinality: the stored count, which for duplicate-free
        contents is the number of distinct values. */
    function Cardinality(): (n: int)
      reads this, arr
      requires Valid()
      ensures n == |Elements()| && 0 <= n <= MAX
      ensures NoDups(Elements()) ==> n == |Values(Elements())|
    {
      if NoDups(Elements()) then DistinctCount(Elements()); num else num
    }

    // -------------------------------------------------------------------
    // Set operations

    /** intset_minus: the elements of a not in b, in a's order. */
    static method Minus(a: Intset, b: Intset) returns (r: Intset)
      requires a.Valid() && b.Valid()
      ensures r.Valid() && r.Elements() == Select(a.Elements(), b.Elements(), false)
      ensures fresh(r) && fresh(r.arr)
      ensures forall x :: x in r.Elements() <==> x in a.Elements() && x !in b.Elements()
      ensures NoDups(a.Elements()) ==> NoDups(r.Elements())
      ensures r.num <= a.num
    {
      r := new Intset();
      var ok := r.AppendSelect(a, b, false);
    }

    /** intset_intersection: the elements of a that are in b, in a's order. */
    static method Intersection(a: Intset, b: Intset) returns (r: Intset)
      requires a.Valid() && b.Valid()
      ensures r.Valid() && r.Elements() == Select(a.Elements(), b.Elements(), true)
      ensures fresh(r) && fresh(r.arr)
      ensures forall x :: x in r.Elements() <==> x in a.Elements() && x in b.Elements()
      ensures NoDups(a.Elements()) ==> NoDups(r.Elements())
      ensures r.num <= a.num
    {
      r := new Intset();
      var ok := r.AppendSelect(a, b, true);
    }

    /** intset_union: all of a, then the elements of b not in a; refused
        when that needs more than MAX slots. */
    static method Union(a: Intset, b: Intset) returns (res: Result<Intset>)
      requires a.Valid() && b.Valid()
      ensures Represents(res, Bounded(SetSpec.Union(a.Elements(), b.Elements())))
      ensures res.Ok? ==> fresh(res.value) && fresh(res.value.arr)
      ensures res.Ok? ==> forall x :: x in res.value.Elements() <==> x in a.Elements() || x in b.Elements()
      ensures res.Ok? && NoDups(a.Elements()) && NoDups(b.Elements()) ==> NoDups(res.value.Elements())
      ensures res.Ok? ==> res.value.num <= a.num + b.num
      ensures a.num + b.num <= MAX ==> res.Ok?
    {
      ghost var A, B := a.Elements(), b.Elements();
      var r := new Intset();
      r.AppendAll(a);
      assert a.Valid() && b.Valid() && a.Elements() == A && b.Elements() == B;
      assert r.Elements() == A;
      var ok := r.AppendSelect(b, a, false);
      assert a.Elements() == A && b.Elements() == B;
      if !ok {
        assert |SetSpec.Union(A, B)| > MAX;
        assert Bounded(SetSpec.Union(A, B)) == Err(CapacityExceeded);
        assert a.num + b.num > MAX by {
          UnionFacts(A, B);
        }
        return Err(CapacityExceeded);
      }
      assert r.Elements() == SetSpec.Union(A, B);
      assert Bounded(SetSpec.Union(A, B)) == Ok(r.Elements());
      UnionFacts(A, B);
      assert r.num <= a.num + b.num;
      return Ok(r);
    }

    /** intset_disjunction: the elements of a not in b, then the elements of
        b not in a; refused when that needs more than MAX slots. */
    static method Disjunction(a: Intset, b: Intset) returns (res: Result<Intset>)
      requires a.Valid() && b.Valid()
      ensures Represents(res, Bounded(SetSpec.Disjunction(a.Elements(), b.Elements())))
      ensures res.Ok? ==> fresh(res.value) && fresh(res.value.arr)
      ensures res.Ok? ==> forall x :: x in res.value.Elements() <==> (x in a.Elements()) != (x in b.Elements())
      ensures res.Ok? && NoDups(a.Elements()) && NoDups(b.Elements()) ==> NoDups(res.value.Elements())
      ensures res.Ok? ==> res.value.num <= a.num + b.num
      ensures a.num + b.num <= MAX ==> res.Ok?
    {
      ghost var A, B := a.Elements(), b.Elements();
      var r := new Intset();
      var ok := r.AppendDifferences(a, b);
      assert a.Elements() == A && b.Elements() == B;
      if !ok {
        assert Bounded(SetSpec.Disjunction(A, B)) == Err(CapacityExceeded);
        assert a.num + b.num > MAX by {
          DisjunctionFacts(A, B);
        }
        return Err(CapacityExceeded);
      }
      assert Bounded(SetSpec.Disjunction(A, B)) == Ok(r.Elements());
      DisjunctionFacts(A, B);
      assert r.num <= a.num + b.num;
      return Ok(r);
    }

    /** The two loops of intset_disjunction, into an empty Intset. */
    method AppendDifferences(a: Intset, b: Intset) returns (ok: bool)
      requires Valid() && a.Valid() && b.Valid() && num == 0
      requires a != this && b != this && a.arr != arr && b.arr != arr
      modifies this, arr
      ensures Valid() && a.Elements() == old(a.Elements()) && b.Elements() == old(b.Elements())
      ensures ok ==> Elements() == SetSpec.Disjunction(a.Elements(), b.Elements())
      ensures !ok ==> |SetSpec.Disjunction(a.Elements(), b.Elements())| > MAX
    {
      ghost var A, B := a.Elements(), b.Elements();
      ok := AppendSelect(a, b, false);
      assert a.Elements() == A && b.Elements() == B;
      assert ok && Elements() == Select(A, B, false) by {
        assert [] + Select(A, B, false) == Select(A, B, false);
      }
      ok := AppendSelect(b, a, false);
      assert a.Elements() == A && b.Elements() == B;
    }

    /** intset_equal: each element of a matched in b as many times as a has
        slots, and the other way round; for duplicate-free contents exactly
        "the same values". */
    static method Equal(a: Intset, b: Intset) returns (eq: bool)
      requires a.Valid() && b.Valid()
      ensures eq <==> Matches(a.Elements(), b.Elements()) == a.num && Matches(b.Elements(), a.Elements()) == b.num
      ensures NoDups(a.Elements()) && NoDups(b.Elements()) ==> (eq <==> SameElements(a.Elements(), b.Elements()))
    {
      var inB := CountMatches(a, b);
      var inA := CountMatches(b, a);
      eq := inA == b.num && inB == a.num;
      if NoDups(a.Elements()) && NoDups(b.Elements()) {
        EqualRule(a.Elements(), b.Elements());
      }
    }

    /** intset_subset: as many matches in b as a has slots; for
        duplicate-free b exactly "every element of a is in b". */
    static method Subset(a: Intset, b: Intset) returns (sub: bool)
      requires a.Valid() && b.Valid()
      ensures sub <==> Matches(a.Elements(), b.Elements()) == a.num
      ensures NoDups(b.Elements()) ==> (sub <==> forall x :: x in a.Elements() ==> x in b.Elements())
    {
      var inB := CountMatches(a, b);
      sub := inB == a.num;
      if NoDups(b.Elements()) {
        SubsetRule(a.Elements(), b.Elements());
      }
    }

    // -------------------------------------------------------------------
    // Text input and output

    /** is_valid_input: one left-to-right scan with the brace counters and
        the three sticky flags, returning early on a refused character or
        a digit in a gap. */
    static method IsValidInput(s: string) returns (ok: bool)
      ensures ok <==> Accepts(s)
    {
      var numLeftBrace, numRightBrace := 0, 0;
      var digitSeen, spaceSeen, commaSeen := false, false, false;
      var i := 0;
      while i < |s|
        invariant 0 <= i <= |s|
        invariant forall k :: 0 <= k < i ==> Allowed(s[k]) && !GapAt(s, k)
        invariant digitSeen == DigitBefore(s, i)
        invariant spaceSeen == SpaceNoted(s, i)
        invariant commaSeen == CommaNoted(s, i)
        invariant numLeftBrace == CountOf(s[..i], '{') && numRightBrace == CountOf(s[..i], '}')
      {
        var c := s[i];
        FlagStep(s, i);
        assert s[..i + 1][..i] == s[..i];
        if !IsDigit(c) && c != '{' && c != '}' && c != ',' && c != ' ' && c != '-' {
          return false;
        }
        if c == '{' {
          numLeftBrace := numLeftBrace + 1;
        }
        if c == '}' {
          numRightBrace := numRightBrace + 1;
        }
        if IsDigit(c) {
          digitSeen := true;
        }
        if digitSeen && c == ' ' {
          spaceSeen := true;
        }
        if spaceSeen && c == ',' {
          commaSeen := true;
        }
        if spaceSeen && !commaSeen && IsDigit(c) {
          assert GapAt(s, i);
          return false;
        }
        i := i + 1;
      }
      assert s[..|s|] == s;
      ok := numLeftBrace == 1 && numRightBrace == 1;
    }

    /** intset_in: validate, keep the digits and commas, split on commas as
        strtok does, convert every token as atoi does, then store each value
        not stored yet. */
    static method In(s: string) returns (res: Result<Intset>)
      ensures Represents(res, ParseSet(s))
      ensures res.Ok? ==> fresh(res.value) && fresh(res.value.arr)
    {
      var valid := IsValidInput(s);
      if !valid {
        return Err(InvalidSyntax);
      }
      var kept := KeepDigitsAndCommas(s);
      var values := Convert(Tokens(kept));
      if values.Err? {
        return Err(values.error);
      }
      res := Store(values.value);
    }

    /** The filter loop of intset_in: tempstr receives the digits and commas
        of s, in order. */
    static method KeepDigitsAndCommas(s: string) returns (t: string)
      ensures t == Keep(s, false)
      ensures |t| <= |s| && forall i :: 0 <= i < |t| ==> IsDigit(t[i]) || t[i] == ','
    {
      var tempstr := new char[|s|];
      var numchars := 0;
      var i := 0;
      while i < |s|
        invariant 0 <= numchars <= i <= |s|
        invariant tempstr[..numchars] == Keep(s[..i], false)
      {
        assert s[..i + 1][..i] == s[..i];
        if IsDigit(s[i]) || s[i] == ',' {
          tempstr[numchars] := s[i];
          numchars := numchars + 1;
        }
        i := i + 1;
      }
      assert s[..|s|] == s;
      t := tempstr[..numchars];
    }

    /** The token loop of intset_in: every token converted, in order; the
        first token that does not convert decides the error. */
    static method Convert(tokens: seq<string>) returns (r: Result<seq<int32>>)
      ensures r == ParseValues(tokens)
      ensures r.Ok? ==> |r.value| == |tokens| && forall k :: 0 <= k < |tokens| ==> Decimal(tokens[k]) == Ok(r.value[k])
    {
      var values: seq<int32> := [];
      var k := 0;
      while k < |tokens|
        invariant 0 <= k <= |tokens|
        invariant ParseValues(tokens[..k]) == Ok(values)
      {
        assert tokens[..k + 1][..k] == tokens[..k];
        var v := Decimal(tokens[k]);
        if v.Err? {
          ValuesPrefixError(tokens, k + 1);
          return Err(v.error);
        }
        values := values + [v.value];
        k := k + 1;
      }
      assert tokens[..|tokens|] == tokens;
      return Ok(values);
    }

    /** The copy loop of intset_in: each value not already stored is
        appended, so the result holds the first occurrences in order; more
        than MAX distinct values are refused. */
    static method Store(values: seq<int32>) returns (res: Result<Intset>)
      ensures Represents(res, Bounded(Dedup(values)))
      ensures res.Ok? ==> fresh(res.value) && fresh(res.value.arr)
    {
      var result := new Intset();
      var i := 0;
      while i < |values|
        invariant 0 <= i <= |values|
        invariant result.Valid() && result.Elements() == Dedup(values[..i])
      {
        assert values[..i + 1][..i] == values[..i];
        var found := Contains(values[i], result);
        if !found {
          if result.num == MAX {
            DedupPrefix(values, i + 1);
            return Err(CapacityExceeded);
          }
          result.Append(values[i]);
        }
        i := i + 1;
      }
      assert values[..|values|] == values;
      return Ok(result);
    }

    /** intset_out: each stored element but the last followed by ", ", then
        the last, all inside braces. */
    method Out() returns (text: string)
      requires Valid()
      ensures text == Render(Elements())
      ensures num == 0 ==> text == "{}"
    {
      var temp := "";
      var i := 0;
      while i < num - 1
        invariant 0 <= i <= num && (num > 0 ==> i <= num - 1)
        invariant temp == Prefix(Decimals(arr[..i]))
      {
        assert Decimals(arr[..i + 1])[..i] == Decimals(arr[..i]);
        temp := temp + Show(arr[i]);
        temp := temp + ", ";
        i := i + 1;
      }
      if num > 0 {
        temp := temp + Show(arr[num - 1]);
        JoinLast(Elements());
        assert Elements()[..num - 1] == arr[..i];
      }
      text := "{" + temp + "}";
    }

    // -------------------------------------------------------------------
    // Binary send and receive

    /** intset_send: the count, then every stored element, each as one
        4-byte word. The receiving side reads the elements back. */
    method Send() returns (buf: seq<byte>)
      requires Valid()
      ensures buf == Wire.Encode(Elements())
      ensures Wire.Decode(buf) == Ok(Elements())
    {
      buf := Wire.WordBytes(num);
      var i := 0;
      while i < num
        invariant 0 <= i <= num
        invariant buf == Wire.WordBytes(num) + Wire.Words(arr[..i])
      {
        assert arr[..i + 1][..i] == arr[..i];
        buf := buf + Wire.WordBytes(arr[i]);
        i := i + 1;
      }
      Wire.DecodeEncode(Elements(), []);
      assert buf + [] == buf;
    }

    /** intset_recv, with the checks the message needs: a count outside
        0..MAX is refused before any slot is written, and a message that
        ends before its last element is truncated. */
    static method Recv(buf: seq<byte>) returns (res: Result<Intset>)
      ensures Represents(res, Wire.Decode(buf))
      ensures res.Ok? ==> fresh(res.value) && fresh(res.value.arr)
    {
      if |buf| < 4 {
        return Err(TruncatedInput);
      }
      var n := Wire.WordValue(buf[..4]);
      if n < 0 {
        return Err(NegativeCount);
      }
      if n > MAX {
        return Err(CapacityExceeded);
      }
      var result := new Intset();
      result.num := n;
      var ok := result.ReadBody(buf[4..], n);
      if !ok {
        return Err(TruncatedInput);
      }
      return Ok(result);
    }

    /** The element loop of intset_recv: slot i receives word i of body,
        for every i below num; fails when body holds fewer than num words. */
    method ReadBody(body: seq<byte>, n: nat) returns (ok: bool)
      requires Valid() && num == n
      modifies arr
      ensures Valid() && num == n
      ensures ok <==> 4 * n <= |body|
      ensures ok ==> Elements() == Wire.ReadWords(body, n)
    {
      var i := 0;
      while i < n
        invariant 0 <= i <= n && 4 * i <= |body|
        invariant Valid() && num == n
        invariant arr[..i] == Wire.ReadWords(body, i)
      {
        if |body| < 4 * i + 4 {
          return false;
        }
        arr[i] := Wire.WordValue(body[4 * i .. 4 * i + 4]);
        assert arr[..i + 1] == arr[..i] + [arr[i]];
        i := i + 1;
      }
      assert arr[..n] == Elements();
      return true;
    }
  }

  /** res is the Intset counterpart of the specified outcome: the same
      error, or a valid Intset holding exactly the specified elements. */
  predicate Represents(res: Result<Intset>, spec: Result<seq<int32>>)
    reads if res.Ok? then {res.value, res.value.arr} else {}
  {
    match res
    case Ok(r) => spec.Ok? && r.Valid() && r.Elements() == spec.value
    case Err(e) => spec == Err(e)
  }

  /** Once the selection of a prefix, after `start`, fills all MAX slots,
      one more selected element means the whole result does not fit. */
  lemma SelectOverflow(start: seq<int32>, a: seq<int32>, b: seq<int32>, keep: bool, i: nat)
    requires i < |a| && (a[i] in b) == keep
    requires |start + Select(a[..i], b, keep)| == MAX
    ensures |start + Select(a, b, keep)| > MAX
  {
    SelectStep(a, b, keep, i);
    SelectPrefix(a, b, keep, i + 1);
  }

  /** How one character moves the three flags of is_valid_input. */
  lemma FlagStep(s: string, i: nat)
    requires i < |s|
    ensures DigitBefore(s, i + 1) == (DigitBefore(s, i) || IsDigit(s[i]))
    ensures SpaceNoted(s, i + 1) == (SpaceNoted(s, i) || SpaceAfterDigit(s, i))
    ensures CommaNoted(s, i + 1) == (CommaNoted(s, i) || (s[i] == ',' && SpaceNoted(s, i)))
  {
    if DigitBefore(s, i + 1) && !IsDigit(s[i]) {
      var d :| 0 <= d < i + 1 && IsDigit(s[d]);
      assert d < i;
    }
    if SpaceNoted(s, i + 1) && !SpaceAfterDigit(s, i) {
      var j :| 0 <= j < i + 1 && SpaceAfterDigit(s, j);
      assert j < i;
    }
    if CommaNoted(s, i + 1) && !(s[i] == ',' && SpaceNoted(s, i)) {
      var c :| 0 <= c < i + 1 && s[c] == ',' && SpaceNoted(s, c);
      assert c < i;
    }
  }
}
