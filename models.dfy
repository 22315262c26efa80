/** Value types of the sales-order aggregate (Models/SalesOrder.cs, Models/ItemOrder.cs)
    and the few framework notions the repositories rely on: nullable references,
    DateTime, string.IsNullOrWhiteSpace / IsNullOrEmpty, and the exceptions they raise. */
module Models {

  /** A C# reference that may be null. */
  datatype Option<+T> = None | Some(value: T)

  /** Identifiers are opaque strings (GUID text for server-generated ones). */
  type Id = string

  /** C# `decimal`: carried and compared, never computed with, so an opaque integer. */
  type Decimal = int

  // ---------------------------------------------------------------------------
  // DateTime as (calendar day, time of day)

  const TicksPerDay: nat := 864_000_000_000
  /** Days from 0001-01-01 through 9999-12-31, the range of System.DateTime. */
  const DaysInCalendar: nat := 3_652_059

  type Day = d: nat | d < DaysInCalendar
  type TimeOfDay = t: nat | t < TicksPerDay

  /** `day` counts days since 0001-01-01; `time` is the tick count within that day. */
  datatype DateTime = DateTime(day: Day, time: TimeOfDay)

  /** DateTime.MinValue, 0001-01-01 00:00:00, the value of an unset `Date`. */
  const MinValue: DateTime := DateTime(0, 0)

  /** Chronological order: `a` is strictly later than `b`. */
  predicate Later(a: DateTime, b: DateTime) {
    a.day > b.day || (a.day == b.day && a.time > b.time)
  }

  /** `CAST(x AS DATE) = CAST(y AS DATE)`: the same calendar day, time ignored. */
  predicate SameDay(a: DateTime, b: DateTime) {
    a.day == b.day
  }

  // ---------------------------------------------------------------------------
  // Strings

  /** char.IsWhiteSpace: Unicode space, line and paragraph separators, U+0009..U+000D and U+0085. */
  predicate IsWhiteSpace(c: char) {
    c == ' ' || ('\t' <= c <= '\r') || c == '\U{0085}' || c == '\U{00A0}' || c == '\U{1680}'
    || ('\U{2000}' <= c <= '\U{200A}') || c == '\U{2028}' || c == '\U{2029}'
    || c == '\U{202F}' || c == '\U{205F}' || c == '\U{3000}'
  }

  /** Every character of `s` is white space (true of the empty string). */
  predicate AllWhiteSpace(s: string) {
    s == [] || (IsWhiteSpace(s[0]) && AllWhiteSpace(s[1..]))
  }

  /** string.IsNullOrWhiteSpace. */
  predicate IsNullOrWhiteSpace(s: Option<string>) {
    s.None? || AllWhiteSpace(s.value)
  }

  /** string.IsNullOrEmpty. */
  predicate IsNullOrEmpty(s: Option<string>) {
    s.None? || s.value == []
  }

  lemma {:induction false} AllWhiteSpaceMeansEveryChar(s: string)
    ensures AllWhiteSpace(s) <==> forall i :: 0 <= i < |s| ==> IsWhiteSpace(s[i])
  {
    if s != [] {
      AllWhiteSpaceMeansEveryChar(s[1..]);
      assert forall i :: 1 <= i < |s| ==> s[i] == s[1..][i - 1];
    }
  }

  /** `s` starts with `k`. */
  predicate StartsWith(s: string, k: string) {
    |k| <= |s| && s[..|k|] == k
  }

  /** `k` occurs in `s` as a contiguous substring (`s LIKE '%' + k + '%'` without wildcards). */
  predicate Contains(s: string, k: string)
    decreases |s|
  {
    StartsWith(s, k) || (s != [] && Contains(s[1..], k))
  }

  /** `k` occurs in `s` starting at index `i`. */
  predicate OccursAt(s: string, k: string, i: int) {
    0 <= i <= |s| - |k| && s[i..i + |k|] == k
  }

  /** The recursive search finds exactly the positional occurrences. */
  lemma {:induction false} ContainsAt(s: string, k: string)
    ensures Contains(s, k) <==> exists i :: OccursAt(s, k, i)
  {
    if StartsWith(s, k) {
      assert OccursAt(s, k, 0);
    }
    if s != [] {
      ContainsAt(s[1..], k);
      if Contains(s[1..], k) {
        var i :| OccursAt(s[1..], k, i);
        assert s[i + 1..i + 1 + |k|] == s[1..][i..i + |k|];
        assert OccursAt(s, k, i + 1);
      }
      if i :| OccursAt(s, k, i) {
        if i > 0 {
          assert s[1..][i - 1..i - 1 + |k|] == s[i..i + |k|];
          assert OccursAt(s[1..], k, i - 1);
        }
      }
    }
  }

  // ---------------------------------------------------------------------------
  // The two entities as the C# objects hold them

  /** ItemOrder: every property of the class; `total` is stored, never derived from qty * price. */
  datatype ItemOrder = ItemOrder(
    idItem: Option<Id>,
    idOrder: Option<Id>,
    itemName: Option<string>,
    qty: int,
    price: Decimal,
    total: Decimal)

  /** SalesOrder: the header properties and the `Items` list, whose elements may be null. */
  datatype SalesOrder = SalesOrder(
    idOrder: Option<Id>,
    numberOrder: Option<string>,
    date: DateTime,
    customer: Option<string>,
    address: Option<string>,
    items: seq<Option<ItemOrder>>)

  // ---------------------------------------------------------------------------
  // Exceptions the core raises itself

  datatype Exception =
    | ArgumentException(message: string)
    | NullReferenceException

  /** What a call did: returned a value or threw. */
  datatype Outcome<+T> = Returned(value: T) | Threw(exception: Exception)
}
