/**
  The removal dialog of `main.py` (`confirmar_remocao`): the typed text is read
  as a list of exam ids and id ranges, the ids are de-duplicated, and each is
  handed to the database's delete call, counting the deletions that succeed.
 */
module Removal {
  import opened Wrappers
  import opened Text
  import opened PyNumbers
  import opened Display

  /** `str(i)` for every `i` with `lo <= i < hi`, ascending. */
  function RangeIds(lo: nat, hi: nat): (ids: seq<string>)
    requires lo <= hi
    ensures |ids| == hi - lo
    decreases hi - lo
  {
    if hi == lo then [] else RangeIds(lo, hi - 1) + [Decimal(hi - 1)]
  }

  /** The `k`-th id of a range is `str(lo + k)`. */
  lemma {:induction false} RangeAt(lo: nat, hi: nat, k: nat)
    requires lo <= hi && k < hi - lo
    ensures RangeIds(lo, hi)[k] == Decimal(lo + k)
    decreases hi - lo
  {
    assert hi > lo;
    var r := RangeIds(lo, hi - 1);
    assert RangeIds(lo, hi) == r + [Decimal(hi - 1)];
    assert |r| == hi - 1 - lo;
    if k < hi - 1 - lo {
      RangeAt(lo, hi - 1, k);
    } else {
      assert lo + k == hi - 1;
    }
  }

  /**
    The ends of a range token, smaller first: the token must split on '-' into
    exactly two pieces that both read as integers (neither can be negative,
    since neither holds a '-').
   */
  function RangeEnds(token: string): (r: Option<(nat, nat)>)
    ensures r.Some? ==> r.value.0 <= r.value.1
  {
    var parts := SplitOn(token, '-');
    if |parts| == 2 then EndsOf(parts[0], parts[1]) else None
  }

  /** The two ends read as integers, smaller first. */
  function EndsOf(p: string, q: string): (r: Option<(nat, nat)>)
    requires '-' !in p && '-' !in q
    ensures r.Some? ==> r.value.0 <= r.value.1
  {
    var a, b := ParseInt(p), ParseInt(q);
    if a.None? || b.None? then None
    else
      NoMinusNotNegative(p);
      NoMinusNotNegative(q);
      Some(if a.value > b.value then (b.value, a.value) else (a.value, b.value))
  }

  /**
    The ids one token adds: a token with a '-' adds the whole range between its
    ends, ends included, or nothing when it has no ends; a token of digits adds
    itself, as typed; any other token adds nothing.
   */
  function TokenIds(token: string): seq<string>
  {
    if '-' in token then
      var ends := RangeEnds(token);
      if ends.Some? then RangeIds(ends.value.0, ends.value.1 + 1) else []
    else if IsDigits(token) then [token]
    else []
  }

  /** The ids of a list of tokens, each token's ids after those of the tokens before it. */
  function TokensIds(tokens: seq<string>, n: nat): seq<string>
    requires n <= |tokens|
  {
    if n == 0 then [] else TokensIds(tokens, n - 1) + TokenIds(Strip(tokens[n - 1]))
  }

  /** The tokens of the typed text: commas count as blanks. */
  function Tokens(entry: string): seq<string>
  {
    Words(ReplaceChar(entry, ',', ' '))
  }

  /** `ids_para_processar` for the typed text. */
  function IdsOf(entry: string): seq<string>
  {
    var tokens := Tokens(entry);
    TokensIds(tokens, |tokens|)
  }

  /** Text without a minus sign never reads as a negative integer. */
  lemma NoMinusNotNegative(s: string)
    requires '-' !in s
    ensures ParseInt(s).Some? ==> ParseInt(s).value >= 0
  {
    StripInside(s);
    if Strip(s) != [] {
      assert Strip(s)[0] in Strip(s);
    }
  }

  /** The ends of a range token: split on '-', read both pieces with `int`, and swap them when reversed. */
  method ReadEnds(token: string) returns (ends: Option<(nat, nat)>)
    ensures ends == RangeEnds(token)
  {
    var parts := SplitOn(token, '-');
    if |parts| != 2 {
      return None;
    }
    var a, b := ParseInt(parts[0]), ParseInt(parts[1]);
    if a.None? || b.None? {
      return None;
    }
    NoMinusNotNegative(parts[0]);
    NoMinusNotNegative(parts[1]);
    var lo, hi := a.value, b.value;
    if lo > hi {
      lo, hi := hi, lo;
    }
    return Some((lo, hi));
  }

  /** `str(i)` for `i` from `lo` to `hi`, both included, in ascending order. */
  method ReadRange(lo: nat, hi: nat) returns (ids: seq<string>)
    requires lo <= hi
    ensures ids == RangeIds(lo, hi + 1)
  {
    ids := [];
    for i := lo to hi + 1
      invariant ids == RangeIds(lo, i)
    {
      ids := ids + [Decimal(i)];
    }
  }

  /** Step 2 of `confirmar_remocao` for one token: the ids it adds. */
  method ReadToken(token: string) returns (ids: seq<string>)
    ensures ids == TokenIds(token)
    ensures AllDigitIds(ids)
  {
    TokenIdsAreDigits(token);
    if '-' in token {
      var ends := ReadEnds(token);
      ids := [];
      if ends.Some? {
        ids := ReadRange(ends.value.0, ends.value.1);
      }
    } else if IsDigits(token) {
      ids := [token];
    } else {
      ids := [];
    }
  }

  /** Steps 1 and 2 of `confirmar_remocao`: the list of ids to process, in the order they were typed. */
  method ParseIds(entry: string) returns (ids: seq<string>)
    ensures ids == IdsOf(entry)
    ensures AllDigitIds(ids)
  {
    var tokens := Words(ReplaceChar(entry, ',', ' '));
    ids := [];
    for t := 0 to |tokens|
      invariant ids == TokensIds(tokens, t)
      invariant AllDigitIds(ids)
    {
      var token := Strip(tokens[t]);
      var more := ReadToken(token);
      ids := ids + more;
    }
  }

  // ----- what the ids are -----

  /** Every id in the list is a non-empty run of ASCII digits. */
  predicate AllDigitIds(ids: seq<string>)
  {
    forall id :: id in ids ==> IsDigits(id)
  }

  lemma TokenIdsAreDigits(token: string)
    ensures AllDigitIds(TokenIds(token))
  {
    var ends := RangeEnds(token);
    if '-' in token && ends.Some? {
      RangeDigits(ends.value.0, ends.value.1 + 1);
    }
  }

  lemma RangeDigits(lo: nat, hi: nat)
    requires lo <= hi
    ensures AllDigitIds(RangeIds(lo, hi))
  {
    var ids := RangeIds(lo, hi);
    forall id | id in ids ensures IsDigits(id) {
      var k :| 0 <= k < |ids| && ids[k] == id;
      RangeAt(lo, hi, k);
    }
  }

  /** A range's ends may be typed in either order. */
  lemma RangeEitherOrder(a: string, b: string)
    requires '-' !in a && '-' !in b
    ensures TokenIds(a + "-" + b) == TokenIds(b + "-" + a)
  {
    RangeShape(a, b);
    RangeShape(b, a);
    assert EndsOf(a, b) == EndsOf(b, a);
  }

  lemma RangeShape(a: string, b: string)
    requires '-' !in a && '-' !in b
    ensures '-' in a + "-" + b && SplitOn(a + "-" + b, '-') == [a, b]
  {
    var x := a + "-" + b;
    assert x[|a|] == '-';
    SplitTwoPieces(a, b, '-');
  }

  /** The ids of a range are the decimal forms of the numbers from `lo` up to, not including, `hi`. */
  lemma RangeMembers(lo: nat, hi: nat)
    requires lo <= hi
    ensures forall id :: id in RangeIds(lo, hi) <==> exists n :: lo <= n < hi && id == Decimal(n)
  {
    var ids := RangeIds(lo, hi);
    forall id | id in ids
      ensures exists n :: lo <= n < hi && id == Decimal(n)
    {
      var k :| 0 <= k < |ids| && ids[k] == id;
      RangeAt(lo, hi, k);
      var n := lo + k;
      assert lo <= n < hi && id == Decimal(n);
    }
    forall n | lo <= n < hi
      ensures Decimal(n) in ids
    {
      RangeAt(lo, hi, n - lo);
      assert ids[n - lo] == Decimal(n);
    }
  }

  /** A range token whose ends are integers adds `str(lo)` up to `str(hi)`, both ends included, in ascending order. */
  lemma RangeContents(a: string, b: string, lo: nat, hi: nat)
    requires '-' !in a && '-' !in b
    requires ParseInt(a) == Some(lo as int) && ParseInt(b) == Some(hi as int) && lo <= hi
    ensures TokenIds(a + "-" + b) == RangeIds(lo, hi + 1)
  {
    RangeShape(a, b);
    assert RangeEnds(a + "-" + b) == EndsOf(a, b) == Some((lo, hi));
  }

  /** A token with a minus sign in front adds nothing: the piece before the sign is empty. */
  lemma ExampleNegative()
    ensures TokenIds("-5") == []
  {
    RangeShape("", "5");
    assert "" + "-" + "5" == "-5";
    assert ParseInt("") == None;
    assert EndsOf("", "5") == None;
  }

  /** A token with two minus signs adds nothing. */
  lemma ExampleTwoDashes()
    ensures TokenIds("1-2-3") == []
  {
    var t := "1-2-3";
    assert t == "1" + ['-'] + "2" + ['-'] + "3";
    SplitThree("1", "2", "3", '-');
    assert '-' in t && RangeEnds(t) == None;
  }

  /** A one-digit number is written as its digit. */
  lemma OneDigit(d: nat)
    requires d < 10
    ensures Decimal(d) == [DigitChar(d)]
  {
    assert Width(d) == 1;
    assert DigitsOf(d, 1) == DigitsOf(0, 0) + [DigitChar(d)];
  }

  lemma OneDigitParse(d: nat)
    requires d < 10
    ensures ParseInt([DigitChar(d)]) == Some(d)
  {
    OneDigit(d);
    ParseIntDecimal(d);
  }

  /** "3-1" adds 1, 2 and 3. */
  lemma ExampleRange()
    ensures TokenIds("3-1") == ["1", "2", "3"]
  {
    ExampleRangeEnds();
    ExampleRangeIds();
  }

  lemma ExampleRangeEnds()
    ensures '-' in "3-1" && RangeEnds("3-1") == Some((1, 3))
  {
    RangeShape("3", "1");
    assert "3" + "-" + "1" == "3-1";
    OneDigitParse(3);
    OneDigitParse(1);
    assert EndsOf("3", "1") == Some((1, 3));
  }

  lemma ExampleRangeIds()
    ensures RangeIds(1, 4) == ["1", "2", "3"]
  {
    OneDigit(1);
    OneDigit(2);
    OneDigit(3);
    assert RangeIds(1, 1) == [];
    assert RangeIds(1, 2) == ["1"];
    assert RangeIds(1, 3) == ["1", "2"];
  }

  // ----- de-duplication and deletion -----

  /** `set(ids)`. */
  function Distinct(ids: seq<string>): (u: set<string>)
    ensures forall id :: id in u <==> id in ids
  {
    set id | id in ids
  }

  /** The distinct ids the delete call succeeds on. */
  function Succeeding(ids: set<string>, succeeds: string -> bool): set<string>
  {
    set id | id in ids && succeeds(id)
  }

  /**
    `confirmar_remocao`: nothing happens for an empty entry (`None`); otherwise every
    distinct id is handed once to the delete call `succeeds`, in the set's own order,
    and the result is the number of deletions that succeeded.
   */
  method ConfirmRemoval(entry: Option<string>, succeeds: string -> bool) returns (removed: Option<nat>)
    ensures !Truthy(entry) ==> removed == None
    ensures Truthy(entry) ==> removed == Some(|Succeeding(Distinct(IdsOf(entry.value)), succeeds)|)
  {
    if !Truthy(entry) {
      return None;
    }
    var ids := ParseIds(entry.value);
    var count := DeleteEach(Distinct(ids), succeeds);
    return Some(count);
  }

  /** Step 3 of `confirmar_remocao`: each distinct id handed once to the delete call, counting successes. */
  method DeleteEach(unique: set<string>, succeeds: string -> bool) returns (count: nat)
    ensures count == |Succeeding(unique, succeeds)|
  {
    count := 0;
    var left := unique;
    while left != {}
      invariant left <= unique
      invariant count == |Succeeding(unique - left, succeeds)|
      decreases |left|
    {
      var id :| id in left;
      ghost var done := unique - left;
      assert unique - (left - {id}) == done + {id};
      if succeeds(id) {
        assert Succeeding(done + {id}, succeeds) == Succeeding(done, succeeds) + {id};
        count := count + 1;
      } else {
        assert Succeeding(done + {id}, succeeds) == Succeeding(done, succeeds);
      }
      left := left - {id};
    }
    assert unique - left == unique;
  }

  /** The count never exceeds the number of distinct ids, and reaches it when every deletion succeeds. */
  lemma {:induction false} RemovedBound(ids: set<string>, succeeds: string -> bool)
    ensures |Succeeding(ids, succeeds)| <= |ids|
    ensures (forall id :: id in ids ==> succeeds(id)) ==> |Succeeding(ids, succeeds)| == |ids|
    decreases |ids|
  {
    if ids != {} {
      var x :| x in ids;
      var rest := ids - {x};
      RemovedBound(rest, succeeds);
      if succeeds(x) {
        assert Succeeding(ids, succeeds) == Succeeding(rest, succeeds) + {x};
      } else {
        assert Succeeding(ids, succeeds) == Succeeding(rest, succeeds);
      }
    }
  }
}
