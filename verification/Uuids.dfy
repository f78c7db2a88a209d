/** UUIDs as their 16 octets, their text form (section 4 of RFC 9562), and the two orders the
    program uses for them: the Go code compares texts, the database compares octets. */
module Uuids {
  type Octet = n: int | 0 <= n < 256
  type Uuid = u: seq<Octet> | |u| == 16 witness seq(16, _ => 0)

  /** The database order. */
  predicate OctetsLess(a: seq<Octet>, b: seq<Octet>) {
    b != [] && (a == [] || a[0] < b[0] || (a[0] == b[0] && OctetsLess(a[1..], b[1..])))
  }

  /** The order of Go strings. */
  predicate TextLess(a: string, b: string) {
    b != [] && (a == [] || a[0] < b[0] || (a[0] == b[0] && TextLess(a[1..], b[1..])))
  }

  function HexDigit(n: int): char
    requires 0 <= n < 16
  {
    if n < 10 then '0' + n as char else 'a' + (n - 10) as char
  }

  predicate DashBefore(i: nat) {
    i == 4 || i == 6 || i == 8 || i == 10
  }

  /** Lower-case hexadecimal with a dash before the octets 4, 6, 8 and 10. */
  function TextFrom(u: Uuid, i: nat): string
    requires i <= 16
    decreases 16 - i, 1
  {
    if i == 16 then ""
    else if DashBefore(i) then ['-'] + OctetText(u, i)
    else OctetText(u, i)
  }

  function OctetText(u: Uuid, i: nat): string
    requires i < 16
    decreases 16 - i, 0
  {
    [HexDigit(u[i] / 16), HexDigit(u[i] % 16)] + TextFrom(u, i + 1)
  }

  function Text(u: Uuid): string {
    TextFrom(u, 0)
  }

  predicate Less(a: Uuid, b: Uuid) {
    OctetsLess(a, b)
  }

  function Least(a: Uuid, b: Uuid): Uuid {
    if Less(b, a) then b else a
  }

  function Greatest(a: Uuid, b: Uuid): Uuid {
    if Less(b, a) then a else b
  }

  /** `OrderedPair` of the domain package. */
  function OrderedPair(first: Uuid, second: Uuid): (Uuid, Uuid) {
    if TextLess(Text(first), Text(second)) then (first, second) else (second, first)
  }

  lemma HexOrder(m: int, n: int)
    requires 0 <= m < 16 && 0 <= n < 16
    ensures HexDigit(m) < HexDigit(n) <==> m < n
    ensures HexDigit(m) == HexDigit(n) <==> m == n
  {
  }

  lemma SamePrefix(c: char, a: string, b: string)
    ensures TextLess([c] + a, [c] + b) <==> TextLess(a, b)
  {
    assert ([c] + a)[1..] == a && ([c] + b)[1..] == b;
  }

  lemma TwoDigits(x: Octet, y: Octet, a: string, b: string)
    ensures TextLess([HexDigit(x / 16), HexDigit(x % 16)] + a, [HexDigit(y / 16), HexDigit(y % 16)] + b)
       <==> x < y || (x == y && TextLess(a, b))
  {
    var s := [HexDigit(x / 16), HexDigit(x % 16)] + a;
    var t := [HexDigit(y / 16), HexDigit(y % 16)] + b;
    HexOrder(x / 16, y / 16);
    HexOrder(x % 16, y % 16);
    assert s[1..] == [HexDigit(x % 16)] + a && t[1..] == [HexDigit(y % 16)] + b;
    assert s[1..][1..] == a && t[1..][1..] == b;
  }

  lemma OctetsStep(a: Uuid, b: Uuid, i: nat)
    requires i < 16
    ensures OctetsLess(a[i..], b[i..]) <==> a[i] < b[i] || (a[i] == b[i] && OctetsLess(a[i + 1..], b[i + 1..]))
  {
    assert a[i..][1..] == a[i + 1..] && b[i..][1..] == b[i + 1..];
  }

  lemma {:induction false} TextOrderFrom(a: Uuid, b: Uuid, i: nat)
    requires i <= 16
    ensures TextLess(TextFrom(a, i), TextFrom(b, i)) <==> OctetsLess(a[i..], b[i..])
    decreases 16 - i
  {
    if i < 16 {
      TextOrderFrom(a, b, i + 1);
      OctetsStep(a, b, i);
      TwoDigits(a[i], b[i], TextFrom(a, i + 1), TextFrom(b, i + 1));
      SamePrefix('-', OctetText(a, i), OctetText(b, i));
    }
  }

  /** Comparing texts and comparing octets is the same order. */
  lemma TextOrderIsOctetOrder(a: Uuid, b: Uuid)
    ensures TextLess(Text(a), Text(b)) <==> Less(a, b)
  {
    TextOrderFrom(a, b, 0);
    assert a[0..] == a && b[0..] == b;
  }

  lemma {:induction false} OctetsTotal(a: seq<Octet>, b: seq<Octet>)
    ensures a == b || OctetsLess(a, b) || OctetsLess(b, a)
    ensures !(OctetsLess(a, b) && OctetsLess(b, a)) && !OctetsLess(a, a)
  {
    if a == [] {
    } else {
      if b != [] && a[0] == b[0] {
        OctetsTotal(a[1..], b[1..]);
        assert a == [a[0]] + a[1..] && b == [b[0]] + b[1..];
      } else {
        OctetsTotal(a[1..], a[1..]);
      }
    }
  }

  lemma {:induction false} OctetsTransitive(a: seq<Octet>, b: seq<Octet>, c: seq<Octet>)
    requires OctetsLess(a, b) && OctetsLess(b, c)
    ensures OctetsLess(a, c)
  {
    if a != [] && a[0] == b[0] == c[0] {
      OctetsTransitive(a[1..], b[1..], c[1..]);
    }
  }

  /** One UUID is before another exactly when it has the smaller octet at the first place they differ. */
  lemma {:induction false} LessAt(a: seq<Octet>, b: seq<Octet>, i: nat)
    requires i < |a| && i < |b| && a[..i] == b[..i] && a[i] != b[i]
    ensures OctetsLess(a, b) <==> a[i] < b[i]
  {
    if i > 0 {
      assert a[0] == a[..i][0] == b[..i][0] == b[0];
      assert a[1..][..i - 1] == a[..i][1..] && b[1..][..i - 1] == b[..i][1..];
      LessAt(a[1..], b[1..], i - 1);
    }
  }

  /** How many characters the text has from octet `i` on. */
  function Rest(i: nat): nat
    requires i <= 16
  {
    2 * (16 - i) + if i <= 4 then 4 else if i <= 6 then 3 else if i <= 8 then 2 else if i <= 10 then 1 else 0
  }

  lemma {:induction false} RestExactly(u: Uuid, i: nat)
    requires i <= 16
    ensures |TextFrom(u, i)| == Rest(i)
    decreases 16 - i
  {
    if i < 16 {
      RestExactly(u, i + 1);
    }
  }

  predicate Shows(t: string, at: nat, x: Octet) {
    at + 1 < |t| && t[at] == HexDigit(x / 16) && t[at + 1] == HexDigit(x % 16)
  }

  lemma ShowsLater(t: string, n: nat, at: nat, x: Octet)
    requires n <= |t| && n <= at && Shows(t[n..], at - n, x)
    ensures Shows(t, at, x)
  {
    assert t[n..][at - n] == t[at] && t[n..][at - n + 1] == t[at + 1];
  }

  /** What octet `j` puts before the rest: its two digits, after a dash or not. */
  lemma Peel(u: Uuid, j: nat)
    requires j < 16
    ensures var t, n := TextFrom(u, j), Rest(j) - Rest(j + 1);
            |t| == Rest(j) && 2 <= n <= 3 && t[n..] == TextFrom(u, j + 1) && Shows(t, n - 2, u[j])
  {
    RestExactly(u, j);
    RestExactly(u, j + 1);
    var digits := [HexDigit(u[j] / 16), HexDigit(u[j] % 16)];
    var rest := TextFrom(u, j + 1);
    if DashBefore(j) {
      assert TextFrom(u, j) == ['-'] + (digits + rest);
    } else {
      assert TextFrom(u, j) == digits + rest;
    }
  }

  lemma DropTwice(t: string, a: nat, b: nat)
    requires a + b <= |t|
    ensures t[a..][b..] == t[a + b..]
  {
  }

  /** What the text has from octet `i` on is its end. */
  lemma {:induction false} Suffix(u: Uuid, i: nat)
    requires i <= 16
    ensures |Text(u)| == 36 && Rest(i) <= 36 && Text(u)[36 - Rest(i)..] == TextFrom(u, i)
  {
    RestExactly(u, 0);
    if i == 0 {
      assert Text(u)[0..] == Text(u);
    } else {
      Suffix(u, i - 1);
      Peel(u, i - 1);
      DropTwice(Text(u), 36 - Rest(i - 1), Rest(i - 1) - Rest(i));
    }
  }

  lemma DigitExactly(n: int)
    requires 0 <= n < 16
    ensures HexDigit(n) == "0123456789abcdef"[n]
  {
  }

  /** Where the digits of octet `i` stand: after two for each octet before, and after the dashes. */
  function PlaceOf(i: nat): nat {
    2 * i + if i < 4 then 0 else if i < 6 then 1 else if i < 8 then 2 else if i < 10 then 3 else 4
  }

  lemma PlaceFromEnd(i: nat)
    requires i < 16
    ensures Rest(0) == 36 && Rest(0) - Rest(i + 1) - 2 == PlaceOf(i)
  {
  }

  /** The text has 36 characters: two digits for each octet, the higher first, in the order of the octets, each
      after the dashes that precede it. */
  lemma TextExactly(u: Uuid, i: nat)
    requires i < 16
    ensures |Text(u)| == 36 && PlaceOf(i) + 1 < 36
    ensures Text(u)[PlaceOf(i)] == "0123456789abcdef"[u[i] / 16]
    ensures Text(u)[PlaceOf(i) + 1] == "0123456789abcdef"[u[i] % 16]
  {
    PlaceFromEnd(i);
    Suffix(u, i);
    Peel(u, i);
    ShowsLater(Text(u), 36 - Rest(i), PlaceOf(i), u[i]);
    DigitExactly(u[i] / 16);
    DigitExactly(u[i] % 16);
  }

  /** The pair the program stores is the pair the database looks up, whichever user comes first. */
  lemma OrderedPairIsLeastGreatest(a: Uuid, b: Uuid)
    ensures OrderedPair(a, b) == (Least(a, b), Greatest(a, b))
    ensures OrderedPair(a, b) == OrderedPair(b, a)
    ensures a != b ==> Less(OrderedPair(a, b).0, OrderedPair(a, b).1)
  {
    TextOrderIsOctetOrder(a, b);
    TextOrderIsOctetOrder(b, a);
    OctetsTotal(a, b);
  }

  /** A pair determines its two users. */
  lemma PairDetermines(a: Uuid, b: Uuid, c: Uuid, d: Uuid)
    ensures (Least(a, b), Greatest(a, b)) == (Least(c, d), Greatest(c, d)) <==> (a == c && b == d) || (a == d && b == c)
  {
    OctetsTotal(a, b);
    OctetsTotal(c, d);
  }
}
