/**
 Queue file names (crates/unimatrix-engine/src/event_queue.rs): `pending-{ms}.jsonl`,
 listed in the lexicographic order of the names. Stamps of equal width list oldest
 first; across widths the leading digits decide.
 */
module QueueNames {
  import opened Prelude

  function Digit(d: nat): char
    requires d < 10
  {
    ['0', '1', '2', '3', '4', '5', '6', '7', '8', '9'][d]
  }

  function Decimal(n: nat): string {
    if n < 10 then [Digit(n)] else Decimal(n / 10) + [Digit(n % 10)]
  }

  function FileName(stamp: nat): string {
    "pending-" + Decimal(stamp) + ".jsonl"
  }

  /** Lexicographic order on strings. */
  predicate NameLess(a: string, b: string) {
    if b == [] then false
    else if a == [] then true
    else a[0] < b[0] || (a[0] == b[0] && NameLess(a[1..], b[1..]))
  }

  predicate Before(a: nat, b: nat) {
    NameLess(FileName(a), FileName(b))
  }

  // ----- a total order -----

  lemma {:induction false} NameTrichotomy(a: string, b: string)
    ensures a == b || NameLess(a, b) || NameLess(b, a)
    ensures !(a == b && NameLess(a, b)) && !(NameLess(a, b) && NameLess(b, a))
  {
    if a != [] && b != [] {
      NameTrichotomy(a[1..], b[1..]);
      assert a == [a[0]] + a[1..] && b == [b[0]] + b[1..];
    }
  }

  lemma {:induction false} NameTransitive(a: string, b: string, c: string)
    requires NameLess(a, b) && NameLess(b, c)
    ensures NameLess(a, c)
  {
    if a != [] && b != [] && c != [] && a[0] == b[0] == c[0] {
      NameTransitive(a[1..], b[1..], c[1..]);
    }
  }

  lemma {:induction false} CommonPrefix(p: string, a: string, b: string)
    ensures NameLess(p + a, p + b) <==> NameLess(a, b)
  {
    if p == [] {
      assert p + a == a && p + b == b;
    } else {
      CommonPrefix(p[1..], a, b);
      assert (p + a)[1..] == p[1..] + a && (p + b)[1..] == p[1..] + b;
    }
  }

  /** After parts of equal length, what follows matters only if the parts are equal. */
  lemma {:induction false} EqualLengthPrefix(a: string, b: string, x: string, y: string)
    requires |a| == |b|
    ensures NameLess(a + x, b + y) <==> NameLess(a, b) || (a == b && NameLess(x, y))
  {
    if a == [] {
      assert a + x == x && b + y == y;
    } else {
      EqualLengthPrefix(a[1..], b[1..], x, y);
      assert (a + x)[1..] == a[1..] + x && (b + y)[1..] == b[1..] + y;
      assert a == [a[0]] + a[1..] && b == [b[0]] + b[1..];
    }
  }

  lemma {:induction false} DecimalInjective(a: nat, b: nat)
    requires Decimal(a) == Decimal(b)
    ensures a == b
  {
    DecimalNonEmpty(a);
    DecimalNonEmpty(b);
    if a >= 10 && b >= 10 {
      var x, y := Decimal(a / 10), Decimal(b / 10);
      assert |x| == |y| && x == Decimal(a)[..|x|] && y == Decimal(b)[..|y|];
      assert Digit(a % 10) == Decimal(a)[|x|] == Digit(b % 10);
      DecimalInjective(a / 10, b / 10);
    } else if a >= 10 {
      DecimalNonEmpty(a / 10);
    } else if b >= 10 {
      DecimalNonEmpty(b / 10);
    }
  }

  /** The number a string of digits stands for. */
  function Value(s: string): int {
    if s == [] then 0 else 10 * Value(s[..|s| - 1]) + (s[|s| - 1] as int - '0' as int)
  }

  /** A stamp is written in decimal: only digits, no leading zero, and reading them back gives the stamp. */
  lemma {:induction false} DecimalReadsBack(n: nat)
    ensures Value(Decimal(n)) == n
    ensures forall i :: 0 <= i < |Decimal(n)| ==> '0' <= Decimal(n)[i] <= '9'
    ensures |Decimal(n)| >= 1 && (n > 0 ==> Decimal(n)[0] != '0')
    ensures FileName(n) == "pending-" + Decimal(n) + ".jsonl"
  {
    var s := Decimal(n);
    if n >= 10 {
      DecimalReadsBack(n / 10);
      assert s[..|s| - 1] == Decimal(n / 10);
    } else {
      assert s[..0] == [];
    }
  }

  lemma DecimalNonEmpty(n: nat)
    ensures |Decimal(n)| >= 1
  {
  }

  lemma NameInjective(a: nat, b: nat)
    requires FileName(a) == FileName(b)
    ensures a == b
  {
    var x, y := Decimal(a), Decimal(b);
    assert |x| == |y|;
    assert x == FileName(a)[8..8 + |x|] && y == FileName(b)[8..8 + |y|];
    DecimalInjective(a, b);
  }

  lemma BeforeTotal(a: nat, b: nat)
    ensures a == b || Before(a, b) || Before(b, a)
    ensures !Before(a, a) && !(Before(a, b) && Before(b, a))
  {
    NameTrichotomy(FileName(a), FileName(b));
    NameTrichotomy(FileName(a), FileName(a));
    if FileName(a) == FileName(b) {
      NameInjective(a, b);
    }
  }

  lemma BeforeTransitive(a: nat, b: nat, c: nat)
    requires Before(a, b) && Before(b, c)
    ensures Before(a, c)
  {
    NameTransitive(FileName(a), FileName(b), FileName(c));
  }

  // ----- width -----

  lemma DigitOrder(c: nat, d: nat)
    requires c < 10 && d < 10
    ensures NameLess([Digit(c)], [Digit(d)]) <==> c < d
  {
  }

  lemma {:induction false} DecimalOrder(a: nat, b: nat)
    requires |Decimal(a)| == |Decimal(b)|
    ensures NameLess(Decimal(a), Decimal(b)) <==> a < b
  {
    hide NameLess, Digit;
    if a < 10 && b < 10 {
      DigitOrder(a, b);
    } else if a >= 10 && b >= 10 {
      DecimalOrder(a / 10, b / 10);
      var x, y := Decimal(a / 10), Decimal(b / 10);
      EqualLengthPrefix(x, y, [Digit(a % 10)], [Digit(b % 10)]);
      if x == y {
        DecimalInjective(a / 10, b / 10);
      }
      DigitOrder(a % 10, b % 10);
    } else {
      DecimalNonEmpty(a / 10);
      DecimalNonEmpty(b / 10);
    }
  }

  function Width(n: nat): nat {
    |Decimal(n)|
  }

  /** `n` without its last `k` digits. */
  function Leading(n: nat, k: nat): nat {
    if k == 0 then n else Leading(n / 10, k - 1)
  }

  predicate IsDigit(c: char) {
    '0' <= c <= '9'
  }

  /** A number is written as its leading digits followed by the others. */
  lemma {:induction false} DecimalSplit(n: nat, k: nat) returns (tail: string)
    requires k < Width(n)
    ensures Decimal(n) == Decimal(Leading(n, k)) + tail && |tail| == k
    ensures k > 0 ==> IsDigit(tail[0])
    decreases k
  {
    if k == 0 {
      tail := [];
    } else {
      var rest := DecimalSplit(n / 10, k - 1);
      tail := rest + [Digit(n % 10)];
    }
  }

  /** A dot sorts before every digit, so a name that is the beginning of another comes first. */
  lemma DotFirst(tail: string)
    requires tail != [] && IsDigit(tail[0])
    ensures NameLess(".jsonl", tail + ".jsonl")
  {
  }

  /** The exact order of two file names: digits are compared from the left, and a shorter name wins a tie. */
  lemma BeforeIff(a: nat, b: nat)
    requires Width(a) <= Width(b) && a != b
    ensures Before(a, b) <==> a <= Leading(b, Width(b) - Width(a))
  {
    hide NameLess, Digit, Decimal, Leading;
    DecimalNonEmpty(a);
    var k := Width(b) - Width(a);
    var lead := Leading(b, k);
    var tail := DecimalSplit(b, k);
    CommonPrefix("pending-", Decimal(a) + ".jsonl", Decimal(b) + ".jsonl");
    assert FileName(a) == "pending-" + (Decimal(a) + ".jsonl");
    assert FileName(b) == "pending-" + (Decimal(b) + ".jsonl");
    assert Decimal(b) + ".jsonl" == Decimal(lead) + (tail + ".jsonl");
    EqualLengthPrefix(Decimal(a), Decimal(lead), ".jsonl", tail + ".jsonl");
    DecimalOrder(a, lead);
    if Decimal(a) == Decimal(lead) {
      DecimalInjective(a, lead);
      LeadingAll(b);
      DotFirst(tail);
    }
  }

  lemma LeadingAll(n: nat)
    ensures Leading(n, 0) == n
  {
  }

  lemma {:induction false} WidthMonotone(a: nat, b: nat)
    requires a <= b
    ensures Width(a) <= Width(b)
  {
    if a >= 10 {
      WidthMonotone(a / 10, b / 10);
    } else {
      DecimalNonEmpty(b);
    }
  }

  /** The older of two stamps does not exceed the leading digits of the newer one. */
  predicate InStep(older: nat, newer: nat) {
    Width(older) <= Width(newer) && older <= Leading(newer, Width(newer) - Width(older))
  }

  /** An older file is listed first exactly when its stamp does not exceed the leading digits of the newer one. */
  lemma OldestFirstIff(older: nat, newer: nat)
    requires older < newer
    ensures Before(older, newer) <==> InStep(older, newer)
  {
    WidthMonotone(older, newer);
    BeforeIff(older, newer);
  }

  /** In particular, among stamps of equal width. */
  lemma EqualWidthOrder(a: nat, b: nat)
    requires Width(a) == Width(b)
    ensures Before(a, b) <==> a < b
  {
    if a != b {
      BeforeIff(a, b);
      LeadingAll(b);
    } else {
      BeforeTotal(a, a);
    }
  }

  /** Stamps 999 and 1000 are listed newest first. */
  lemma WidthMatters()
    ensures 999 < 1000 && Before(1000, 999)
  {
    assert Decimal(1000) == "1000" && Decimal(999) == "999";
    assert Leading(1000, 1) == 100;
    BeforeIff(999, 1000);
    BeforeTotal(999, 1000);
  }

  // ----- listings -----

  ghost predicate Listed(s: seq<nat>) {
    forall i, j :: 0 <= i < j < |s| ==> Before(s[i], s[j])
  }

  /** A set of files has one listing. */
  lemma {:induction false} ListingUnique(a: seq<nat>, b: seq<nat>)
    requires Listed(a) && Listed(b) && Elements(a) == Elements(b)
    ensures a == b
  {
    hide Before;
    assert b != [] ==> b[0] in Elements(b);
    if a == [] {
    } else {
      assert a[0] in Elements(b) && b[0] in Elements(a);
      BeforeTotal(a[0], b[0]);
      FirstIsLeast(a, b[0]);
      FirstIsLeast(b, a[0]);
      assert a[0] == b[0];
      TailElements(a);
      TailElements(b);
      ListingUnique(a[1..], b[1..]);
    }
  }

  lemma FirstIsLeast(s: seq<nat>, x: nat)
    requires Listed(s) && x in s
    ensures s[0] == x || Before(s[0], x)
  {
  }

  lemma TailElements(s: seq<nat>)
    requires Listed(s) && s != []
    ensures Elements(s[1..]) == Elements(s) - {s[0]}
  {
    hide Before;
    forall x | x in s[1..] ensures x != s[0] {
      BeforeTotal(x, x);
    }
  }

  ghost function Listing(stamps: set<nat>): (s: seq<nat>)
    ensures Listed(s) && Elements(s) == stamps
  {
    ListingExists(stamps);
    var s: seq<nat> :| Listed(s) && Elements(s) == stamps;
    s
  }

  lemma {:induction false} ListingExists(stamps: set<nat>)
    ensures exists s: seq<nat> :: Listed(s) && Elements(s) == stamps
  {
    hide Before;
    if stamps == {} {
      assert Listed([]) && Elements<nat>([]) == stamps;
    } else {
      var x :| x in stamps;
      ListingExists(stamps - {x});
      var rest: seq<nat> :| Listed(rest) && Elements(rest) == stamps - {x};
      var s := Inserted(rest, x);
      InsertedListed(rest, x);
    }
  }

  /** Every two stamps are named in the order of time. */
  ghost predicate Chronological(stamps: set<nat>) {
    forall a, b :: a in stamps && b in stamps && a < b ==> Before(a, b)
  }

  /** A directory lists oldest first exactly when each stamp stays within the leading digits of every later one. */
  lemma ListingChronologicalIff(stamps: set<nat>)
    ensures StrictlyAscending(Listing(stamps)) <==> forall a, b :: a in stamps && b in stamps && a < b ==> InStep(a, b)
    ensures StrictlyAscending(Listing(stamps)) <==> Chronological(stamps)
  {
    hide Before, InStep, Listing;
    var s := Listing(stamps);
    forall a, b | a < b ensures Before(a, b) <==> InStep(a, b) {
      OldestFirstIff(a, b);
    }
    if Chronological(stamps) {
      forall i, j | 0 <= i < j < |s| ensures s[i] < s[j] {
        ListedPair(s, i, j);
      }
    }
    if StrictlyAscending(s) {
      forall a, b | a in stamps && b in stamps && a < b ensures Before(a, b) {
        AscendingPair(s, a, b);
      }
    }
  }

  lemma ListedPair(s: seq<nat>, i: nat, j: nat)
    requires Listed(s) && Chronological(Elements(s)) && i < j < |s|
    ensures s[i] < s[j]
  {
    hide Before;
    BeforeTotal(s[i], s[j]);
    assert s[i] in Elements(s) && s[j] in Elements(s);
  }

  lemma AscendingPair(s: seq<nat>, a: nat, b: nat)
    requires Listed(s) && StrictlyAscending(s) && a in Elements(s) && b in Elements(s) && a < b
    ensures Before(a, b)
  {
    hide Before;
    var i :| 0 <= i < |s| && s[i] == a;
    var j :| 0 <= j < |s| && s[j] == b;
    assert !(j < i) && i != j;
  }

  /** `x` put in its place in a listing. */
  function Inserted(s: seq<nat>, x: nat): seq<nat> {
    if s == [] || Before(x, s[0]) then [x] + s else [s[0]] + Inserted(s[1..], x)
  }

  lemma {:induction false} InsertedListed(s: seq<nat>, x: nat)
    requires Listed(s) && x !in s
    ensures Listed(Inserted(s, x)) && Elements(Inserted(s, x)) == Elements(s) + {x}
  {
    hide Before;
    if s == [] {
    } else if Before(x, s[0]) {
      forall i | 0 < i < |s| ensures Before(x, s[i]) {
        BeforeTransitive(x, s[0], s[i]);
      }
      assert Elements([x] + s) == Elements(s) + {x};
    } else {
      var rest := Inserted(s[1..], x);
      InsertedListed(s[1..], x);
      BeforeTotal(x, s[0]);
      assert Elements(s) == {s[0]} + Elements(s[1..]);
      forall i | 0 <= i < |rest| ensures Before(s[0], rest[i]) {
        assert rest[i] in Elements(rest);
      }
      assert Elements([s[0]] + rest) == {s[0]} + Elements(rest);
    }
  }

  /** `list_queue_files`: the queue files sorted by name. */
  method ListQueueFiles(stamps: set<nat>) returns (files: seq<nat>)
    ensures files == Listing(stamps)
  {
    hide Before;
    files := [];
    var rest := stamps;
    while rest != {}
      invariant rest <= stamps && Listed(files) && Elements(files) == stamps - rest
      decreases rest
    {
      var x :| x in rest;
      assert x !in Elements(files);
      InsertedListed(files, x);
      files := Inserted(files, x);
      rest := rest - {x};
    }
    ListingUnique(files, Listing(stamps));
  }
}
