/** The notice record (one row of the `extrajudicial_notifications` table) and
    the list operations the components apply to fetched rows: `filter`,
    `length` and the `reduce` that sums debt amounts. */
module Notices {

  datatype Option<T> = None | Some(value: T)

  /** One party of a notice: the `creditor_*` or the `debtor_*` column family. */
  datatype Party = Party(
    name: string,
    document: string,
    address: string,
    city: string,
    state: string,
    zip: string,
    complement: Option<string>,
    email: Option<string>,
    phone: Option<string>)

  /** The calendar month (month in 1..12) into which `created_at` falls, as
      `getFullYear()` and `getMonth() + 1` read it in the local time zone. */
  datatype YearMonth = YearMonth(year: int, month: int)

  predicate ValidMonth(m: YearMonth) { 1 <= m.month <= 12 }

  /** A row of the notice table. `accepted` is a nullable boolean; `status` is
      free text ('pending' on creation, 'ignored' when set from outside the
      application); `debtAmount` is in integer cents. `createdAt` is the stored
      timestamp text and `createdMonth` its (year, month) decomposition. */
  datatype Notice = Notice(
    id: string,
    token: string,
    status: string,
    accepted: Option<bool>,
    acceptedAt: Option<string>,
    acceptanceHash: Option<string>,
    acceptanceIp: Option<string>,
    createdAt: string,
    createdMonth: YearMonth,
    creatorHash: Option<string>,
    creatorIp: Option<string>,
    creditor: Party,
    debtor: Party,
    debtAmount: int,
    debtDescription: string,
    dueDate: string,
    propertyAddress: string,
    paymentDeadlineDays: int,
    pdfUrl: Option<string>,
    termsAndClauses: string,
    updatedAt: string)

  // ---------------------------------------------------------------------------
  // Status predicates

  /** `n.accepted === true`. On a boolean-or-null column this is also what the
      truthiness test `n.accepted ? … : …` means. */
  predicate IsAccepted(n: Notice) { n.accepted == Some(true) }

  /** The dashboard's and the export's pending test:
      `n.accepted === false && n.status !== 'ignored'`. A null `accepted` fails it. */
  predicate IsStrictlyPending(n: Notice) { n.accepted == Some(false) && n.status != "ignored" }

  /** `n.status === 'ignored'`. */
  predicate IsIgnored(n: Notice) { n.status == "ignored" }

  /** The truthiness-based pending test of the monthly series and the PDF
      summary: `!n.accepted && n.status !== 'ignored'`, which a null `accepted`
      passes. */
  predicate IsLoosePending(n: Notice) { !IsAccepted(n) && !IsIgnored(n) }

  // ---------------------------------------------------------------------------
  // Array.prototype.filter and the sums over debt amounts

  /** `xs.filter(p)`. */
  function Select<T>(xs: seq<T>, p: T -> bool): (r: seq<T>)
    ensures |r| <= |xs|
    ensures forall x :: x in r ==> x in xs && p(x)
  {
    if xs == [] then [] else (if p(xs[0]) then [xs[0]] else []) + Select(xs[1..], p)
  }

  /** a can be obtained from b by deleting elements: an order-preserving sublist. */
  predicate IsSublist<T(==)>(a: seq<T>, b: seq<T>)
    decreases |b|
  {
    if a == [] then true
    else if b == [] then false
    else if a[0] == b[0] then IsSublist(a[1..], b[1..])
    else IsSublist(a, b[1..])
  }

  lemma {:induction false} SelectAppend<T>(xs: seq<T>, ys: seq<T>, p: T -> bool)
    ensures Select(xs + ys, p) == Select(xs, p) + Select(ys, p)
  {
    if xs == [] {
      assert xs + ys == ys;
    } else {
      assert (xs + ys)[1..] == xs[1..] + ys;
      SelectAppend(xs[1..], ys, p);
    }
  }

  /** The filter keeps the order of what it keeps. */
  lemma {:induction false} SelectIsSublist<T>(xs: seq<T>, p: T -> bool)
    ensures IsSublist(Select(xs, p), xs)
  {
    if xs != [] {
      SelectIsSublist(xs[1..], p);
      if !p(xs[0]) {
        assert Select(xs, p) == Select(xs[1..], p);
        SublistOfTail(Select(xs[1..], p), xs);
      }
    }
  }

  /** Adding an element in front of b keeps a a sublist of it. */
  lemma {:induction false} SublistOfTail<T>(a: seq<T>, b: seq<T>)
    requires b != [] && IsSublist(a, b[1..])
    ensures IsSublist(a, b)
    decreases |b|, 1
  {
    if a != [] && a[0] == b[0] {
      SublistDropHead(a, b[1..]);
    }
  }

  /** Deleting the first element of a keeps it a sublist of c. */
  lemma {:induction false} SublistDropHead<T>(a: seq<T>, c: seq<T>)
    requires a != [] && IsSublist(a, c)
    ensures IsSublist(a[1..], c)
    decreases |c| + 1, 0
  {
    if a[0] == c[0] {
      if a[1..] != [] {
        SublistOfTail(a[1..], c);
      }
    } else {
      SublistDropHead(a, c[1..]);
      SublistOfTail(a[1..], c);
    }
  }

  /** The filter keeps every copy of an element that passes and no copy of one
      that fails. */
  lemma {:induction false} SelectMultiplicity<T>(xs: seq<T>, p: T -> bool, x: T)
    ensures multiset(Select(xs, p))[x] == if p(x) then multiset(xs)[x] else 0
  {
    if xs != [] {
      assert xs == [xs[0]] + xs[1..];
      SelectMultiplicity(xs[1..], p, x);
    }
  }

  /** Filtering with a test every element passes changes nothing. */
  lemma {:induction false} SelectAll<T>(xs: seq<T>, p: T -> bool)
    requires forall x :: x in xs ==> p(x)
    ensures Select(xs, p) == xs
  {
    if xs != [] {
      assert forall x :: x in xs[1..] ==> x in xs;
      SelectAll(xs[1..], p);
    }
  }

  /** Filtering with a test every element fails keeps nothing. */
  lemma NoneSelected(ns: seq<Notice>, p: Notice -> bool)
    ensures (forall n :: n in ns ==> !p(n)) ==> CountWhere(ns, p) == 0
  {
    if (forall n :: n in ns ==> !p(n)) && CountWhere(ns, p) > 0 {
      var x := Select(ns, p)[0];
      assert x in Select(ns, p);
    }
  }

  /** Every list is a sublist of itself. */
  lemma {:induction false} SublistReflexive<T>(xs: seq<T>)
    ensures IsSublist(xs, xs)
  {
    if xs != [] {
      SublistReflexive(xs[1..]);
    }
  }

  /** The number of elements passing p, which is what `filter(p).length` gives. */
  function CountWhere<T>(xs: seq<T>, p: T -> bool): (c: nat)
    ensures c <= |xs|
  {
    |Select(xs, p)|
  }

  lemma CountWhereCons<T>(xs: seq<T>, p: T -> bool)
    requires xs != []
    ensures CountWhere(xs, p) == (if p(xs[0]) then 1 else 0) + CountWhere(xs[1..], p)
  {
  }

  /** `ns.reduce((sum, n) => sum + Number(n.debt_amount), 0)`, in cents. */
  function TotalCents(ns: seq<Notice>): int
  {
    if ns == [] then 0 else ns[0].debtAmount + TotalCents(ns[1..])
  }

  predicate NonNegativeAmounts(ns: seq<Notice>) { forall i :: 0 <= i < |ns| ==> ns[i].debtAmount >= 0 }

  /** For two tests no notice passes both, the amounts of the two filtered
      lists together never exceed the amount of the whole list, as long as no
      amount is negative. */
  lemma {:induction false} DisjointSumsBounded(ns: seq<Notice>, p: Notice -> bool, q: Notice -> bool)
    requires NonNegativeAmounts(ns)
    requires forall n :: !(p(n) && q(n))
    ensures TotalCents(Select(ns, p)) + TotalCents(Select(ns, q)) <= TotalCents(ns)
  {
    if ns != [] {
      DisjointSumsBounded(ns[1..], p, q);
      var h := ns[0];
      var sp := (if p(h) then [h] else []) + Select(ns[1..], p);
      var sq := (if q(h) then [h] else []) + Select(ns[1..], q);
      TotalCentsHead(if p(h) then [h] else [], Select(ns[1..], p));
      TotalCentsHead(if q(h) then [h] else [], Select(ns[1..], q));
    }
  }

  lemma TotalCentsHead(a: seq<Notice>, b: seq<Notice>)
    requires |a| <= 1
    ensures TotalCents(a + b) == TotalCents(a) + TotalCents(b)
  {
    if a != [] {
      assert (a + b)[1..] == b;
    } else {
      assert a + b == b;
    }
  }

  /** Counting with two tests that no notice passes both, plus the rest,
      counts every notice exactly once. */
  lemma {:induction false} CountSplit<T>(xs: seq<T>, p: T -> bool)
    ensures CountWhere(xs, p) + CountWhere(xs, x => !p(x)) == |xs|
  {
    if xs != [] {
      CountSplit(xs[1..], p);
    }
  }
}
