/**
  One entry of the mail backend's envelope listing, as the bot reads it from the
  parsed JSON: its `id`, its `from` field and its `subject`.
 */
module Envelope {
  import opened Wrappers
  import Text

  /** A message identifier as it appears in the listing. Equality is Python's
      equality on the raw value, so `Int(9) != Str("9")`: the processed-id set
      keeps both. `Absent` is an envelope without an `id` key, whose
      `.get("id")` is `None`. */
  datatype Id = Int(n: int) | Str(s: string) | Absent

  /** The `from` field of an envelope. */
  datatype Sender =
    | NoFrom                        // key missing: the default `{}` is used
    | FromRecord(addr: Option<string>) // a JSON object, with or without an `addr` key
    | FromOther(repr: string)       // any other JSON value, through Python's `str()`

  datatype Envelope = Envelope(id: Id, from: Sender, subject: Option<string>)

  /** The address targets are matched against: `from.addr` for an object,
      `str(from)` for any other value, `""` when there is nothing to read. */
  function SenderAddress(f: Sender): (addr: string)
    ensures f.NoFrom? ==> addr == ""
    ensures f.FromRecord? && f.addr.None? ==> addr == ""
    ensures f.FromRecord? && f.addr.Some? ==> addr == f.addr.value
    ensures f.FromOther? ==> addr == f.repr
  {
    match f
    case NoFrom => ""
    case FromRecord(a) => if a.Some? then a.value else ""
    case FromOther(repr) => repr
  }

  /** The sort key of an identifier: a number when the id is an int or a digit
      string, the raw string otherwise. An envelope without an id sorts as 0. */
  datatype SortKey = NumKey(n: int) | StrKey(s: string)

  function KeyOf(id: Id): (k: SortKey)
    ensures id.Int? ==> k == NumKey(id.n)
    ensures id.Str? && !Text.IsDigits(id.s) ==> k == StrKey(id.s)
    ensures id.Str? && Text.IsDigits(id.s) ==> k == NumKey(Text.DecimalValue(id.s))
    ensures id.Absent? ==> k == NumKey(0)
  {
    match id
    case Int(n) => NumKey(n)
    case Str(s) => if Text.IsDigits(s) then NumKey(Text.DecimalValue(s)) else StrKey(s)
    case Absent => NumKey(0)
  }

  /** The source computes the key of an int id through `str(id).isdigit()` and
      `int(id)`; for a non-negative int that path gives the int itself, so an
      int id sorts exactly like the digit string `str(id)`. (A negative int
      fails `isdigit()` and sorts as its raw value, which is the same number.) */
  lemma IntKeyIsDigitStringKey(n: nat)
    ensures KeyOf(Int(n)) == KeyOf(Str(Text.NatToString(n)))
  {
    Text.DecimalOfNatToString(n);
  }

  function Key(e: Envelope): SortKey
  {
    KeyOf(e.id)
  }

  /** Python can order two keys only when both are numbers or both are strings;
      comparing a number with a string raises `TypeError`. */
  predicate SameKind(a: SortKey, b: SortKey)
  {
    a.NumKey? == b.NumKey?
  }

  /** `a <= b` on two keys of the same kind. */
  predicate KeyLe(a: SortKey, b: SortKey)
    requires SameKind(a, b)
  {
    match a
    case NumKey(x) => x <= b.n
    case StrKey(x) => Text.LexLe(x, b.s)
  }

  /** `a < b` on two keys of the same kind. */
  predicate KeyLt(a: SortKey, b: SortKey)
    requires SameKind(a, b)
  {
    !KeyLe(b, a)
  }

  lemma KeyLeReflexive(a: SortKey)
    ensures KeyLe(a, a)
  {
    if a.StrKey? {
      Text.LexLeTotal(a.s, a.s);
    }
  }

  lemma KeyLeTotal(a: SortKey, b: SortKey)
    requires SameKind(a, b)
    ensures KeyLe(a, b) || KeyLe(b, a)
  {
    if a.StrKey? {
      Text.LexLeTotal(a.s, b.s);
    }
  }

  lemma KeyLeTransitive(a: SortKey, b: SortKey, c: SortKey)
    requires SameKind(a, b) && SameKind(b, c)
    requires KeyLe(a, b) && KeyLe(b, c)
    ensures KeyLe(a, c)
  {
    if a.StrKey? {
      Text.LexLeTransitive(a.s, b.s, c.s);
    }
  }

  /** Every envelope of `es` has a numeric key, or every one has a string key:
      the condition under which Python can sort `es` by key at all. */
  predicate UniformKeys(es: seq<Envelope>)
  {
    (forall i :: 0 <= i < |es| ==> Key(es[i]).NumKey?) || (forall i :: 0 <= i < |es| ==> Key(es[i]).StrKey?)
  }
}
