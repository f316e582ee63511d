/**
 The tables by producer of libraries/chain/block_header_state.cpp: a flat_map from
 accounts to block numbers, as the list of its entries.
 */
module ProducerTables {

  type AccountName = string

  datatype Entry = Entry(producer: AccountName, blockNum: nat)

  /** Assignment through operator[]. */
  function Put(entries: seq<Entry>, producer: AccountName, n: nat): seq<Entry>
  {
    if entries == [] then [Entry(producer, n)]
    else if entries[0].producer == producer then [Entry(producer, n)] + entries[1..]
    else [entries[0]] + Put(entries[1..], producer, n)
  }

  /** What find gives, or another number when it finds nothing. */
  function Lookup(entries: seq<Entry>, producer: AccountName, otherwise: nat): nat
  {
    if entries == [] then otherwise
    else if entries[0].producer == producer then entries[0].blockNum
    else Lookup(entries[1..], producer, otherwise)
  }

  function Keys(entries: seq<Entry>): set<AccountName> { set i | 0 <= i < |entries| :: entries[i].producer }

  predicate DistinctKeys(entries: seq<Entry>)
  {
    forall i, j | 0 <= i < j < |entries| :: entries[i].producer != entries[j].producer
  }

  /** Every number in the table is one of these. */
  predicate Within(entries: seq<Entry>, numbers: set<nat>)
  {
    forall i | 0 <= i < |entries| :: entries[i].blockNum in numbers
  }

  lemma KeysTail(entries: seq<Entry>)
    requires entries != []
    ensures Keys(entries) == {entries[0].producer} + Keys(entries[1..])
  {
    forall p | p in Keys(entries) ensures p in {entries[0].producer} + Keys(entries[1..]) {
      var i :| 0 <= i < |entries| && entries[i].producer == p;
      if i > 0 { assert entries[1..][i - 1].producer == p; }
    }
    forall p | p in Keys(entries[1..]) ensures p in Keys(entries) {
      var i :| 0 <= i < |entries[1..]| && entries[1..][i].producer == p;
      assert entries[i + 1].producer == p;
    }
  }

  lemma {:induction false} PutNew(entries: seq<Entry>, p: AccountName, n: nat)
    requires p !in Keys(entries)
    ensures Put(entries, p, n) == entries + [Entry(p, n)]
  {
    if entries != [] {
      KeysTail(entries);
      PutNew(entries[1..], p, n);
    }
  }

  lemma {:induction false} PutKnown(entries: seq<Entry>, p: AccountName, n: nat)
    requires p in Keys(entries) && DistinctKeys(entries)
    ensures |Put(entries, p, n)| == |entries|
    ensures forall i | 0 <= i < |entries| ::
              Put(entries, p, n)[i] == if entries[i].producer == p then Entry(p, n) else entries[i]
  {
    KeysTail(entries);
    if entries[0].producer != p {
      PutKnown(entries[1..], p, n);
    } else {
      assert forall i | 0 < i < |entries| :: entries[i].producer != p;
    }
  }

  /** An assignment adds its key and keeps the others, with their order. */
  lemma PutKeys(entries: seq<Entry>, p: AccountName, n: nat)
    requires DistinctKeys(entries)
    ensures DistinctKeys(Put(entries, p, n)) && Keys(Put(entries, p, n)) == Keys(entries) + {p}
  {
    hide Put;
    var after := Put(entries, p, n);
    if p in Keys(entries) {
      PutKnown(entries, p, n);
      assert forall i | 0 <= i < |entries| :: after[i].producer == entries[i].producer;
    } else {
      PutNew(entries, p, n);
      assert after[|entries|].producer == p;
      assert forall i | 0 <= i < |entries| :: after[i].producer == entries[i].producer;
    }
  }

  lemma {:induction false} PutLookup(entries: seq<Entry>, p: AccountName, n: nat, q: AccountName, otherwise: nat)
    ensures Lookup(Put(entries, p, n), q, otherwise) == if q == p then n else Lookup(entries, q, otherwise)
  {
    if entries != [] && entries[0].producer != p { PutLookup(entries[1..], p, n, q, otherwise); }
  }

  lemma {:induction false} PutWithin(entries: seq<Entry>, p: AccountName, n: nat, numbers: set<nat>)
    requires Within(entries, numbers) && n in numbers
    ensures Within(Put(entries, p, n), numbers)
  {
    if entries != [] { PutWithin(entries[1..], p, n, numbers); }
  }

  lemma {:induction false} LookupWithin(entries: seq<Entry>, p: AccountName, otherwise: nat, numbers: set<nat>)
    requires Within(entries, numbers) && otherwise in numbers
    ensures Lookup(entries, p, otherwise) in numbers
  {
    if entries != [] { LookupWithin(entries[1..], p, otherwise, numbers); }
  }

  lemma {:induction false} LookupAt(entries: seq<Entry>, i: nat, otherwise: nat)
    requires DistinctKeys(entries) && i < |entries|
    ensures Lookup(entries, entries[i].producer, otherwise) == entries[i].blockNum
  {
    if i > 0 { LookupAt(entries[1..], i - 1, otherwise); }
  }

  lemma {:induction false} LookupMissing(entries: seq<Entry>, p: AccountName, otherwise: nat)
    requires p !in Keys(entries)
    ensures Lookup(entries, p, otherwise) == otherwise
  {
    if entries != [] {
      KeysTail(entries);
      LookupMissing(entries[1..], p, otherwise);
    }
  }
}
