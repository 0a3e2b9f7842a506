/** The order `ORDER BY timestamp ASC` puts text in: SQLite's default BINARY
    collation, which compares UTF-8 bytes and so orders strings
    lexicographically by code point. Timestamps are ordered as text, not as
    instants. */
module Ordering {

  /** `a` sorts no later than `b`: lexicographic by code point, a proper prefix
      first. */
  predicate LexLe(a: string, b: string)
    decreases |a|
  {
    a == [] || (b != [] && (a[0] < b[0] || (a[0] == b[0] && LexLe(a[1..], b[1..]))))
  }

  lemma {:induction false} LexLeRefl(a: string)
    ensures LexLe(a, a)
    decreases |a|
  {
    if a != [] {
      LexLeRefl(a[1..]);
    }
  }

  /** Any two strings are comparable. */
  lemma {:induction false} LexLeTotal(a: string, b: string)
    ensures LexLe(a, b) || LexLe(b, a)
    decreases |a|
  {
    if a != [] && b != [] && a[0] == b[0] {
      LexLeTotal(a[1..], b[1..]);
    }
  }

  lemma {:induction false} LexLeTrans(a: string, b: string, c: string)
    requires LexLe(a, b) && LexLe(b, c)
    ensures LexLe(a, c)
    decreases |a|
  {
    if a != [] && b != [] && c != [] && a[0] == b[0] == c[0] {
      LexLeTrans(a[1..], b[1..], c[1..]);
    }
  }

  /** Strings that sort no later than each other are equal. */
  lemma {:induction false} LexLeAntisym(a: string, b: string)
    requires LexLe(a, b) && LexLe(b, a)
    ensures a == b
    decreases |a|
  {
    if a != [] {
      LexLeAntisym(a[1..], b[1..]);
      assert a == [a[0]] + a[1..] && b == [b[0]] + b[1..];
    }
  }

  /** A shared prefix does not change the comparison. */
  lemma {:induction false} LexLeSharedPrefix(p: string, x: string, y: string)
    ensures LexLe(p + x, p + y) == LexLe(x, y)
    decreases |p|
  {
    if p == [] {
      assert p + x == x && p + y == y;
    } else {
      LexLeSharedPrefix(p[1..], x, y);
      assert (p + x)[0] == (p + y)[0] == p[0];
      assert (p + x)[1..] == p[1..] + x && (p + y)[1..] == p[1..] + y;
    }
  }

  /** The order is by characters, not by instant: 10:00 at UTC+5 is 05:00 UTC,
      an hour before 06:00 UTC, yet it sorts after it. */
  lemma OffsetStampSortsByText()
    ensures LexLe("2023-06-15T06:00:00Z", "2023-06-15T10:00:00+05:00")
    ensures !LexLe("2023-06-15T10:00:00+05:00", "2023-06-15T06:00:00Z")
  {
    var day, early, late := "2023-06-15T", "06:00:00Z", "10:00:00+05:00";
    assert day + early == "2023-06-15T06:00:00Z";
    assert day + late == "2023-06-15T10:00:00+05:00";
    LexLeSharedPrefix(day, early, late);
    LexLeSharedPrefix(day, late, early);
  }

  /** 15:00 sorts after 14:00 on the same day. */
  lemma FifteenAfterFourteen()
    ensures !LexLe("2023-06-15T15:00:00Z", "2023-06-15T14:00:00Z")
  {
    var day, late, early := "2023-06-15T", "15:00:00Z", "14:00:00Z";
    assert day + late == "2023-06-15T15:00:00Z" && day + early == "2023-06-15T14:00:00Z";
    LexLeSharedPrefix(day, late, early);
  }
}
