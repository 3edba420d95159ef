/** Variant records as the VCF reader delivers them, and how consecutive
    records at one position are folded into one group of alleles. */
module Variants {
  import opened Basics

  /** One decoded variant record: its position, reference allele and
      alternate alleles. */
  datatype Record = Record(position: int, ref: string, alt: seq<string>)

  /** All alleles of a record: the reference allele first, then the alternates. */
  function Alleles(r: Record): seq<string>
  {
    [r.ref] + r.alt
  }

  const Wrap: int := 0x1_0000_0000

  /** A record position converted to a 32-bit unsigned index, wrapping modulo 2^32. */
  function U32(x: int): (r: nat)
    ensures r < Wrap
    ensures 0 <= x < Wrap ==> r == x
  {
    x % Wrap
  }

  /** The cast keeps a position's residue modulo 2^32. */
  lemma U32Wraps(x: int)
    ensures (x - U32(x)) % Wrap == 0
  {
    assert x == (x / Wrap) * Wrap + U32(x);
    assert x - U32(x) == (x / Wrap) * Wrap;
  }

  /** Positions 2^32 apart are cast to the same index, so a later group
      folds them together. */
  lemma U32Folds(x: int)
    ensures U32(x + Wrap) == U32(x)
  {
    assert x + Wrap == (x / Wrap + 1) * Wrap + x % Wrap;
  }

  /** An allele is kept unless it is symbolic, that is, unless its first
      character is `<`. The empty string is kept: the character read at its
      index 0 is the terminating NUL. */
  predicate Kept(a: string)
  {
    !(|a| > 0 && a[0] == '<')
  }

  function KeptOf(alleles: seq<string>): seq<string>
  {
    Select(alleles, Kept)
  }

  /** A group of alleles waiting for its reference index `site`. */
  datatype Group = Group(site: nat, alleles: seq<string>)

  /** Does record `r` continue the group that `lead` opened? The first group
      compares full positions, every later group compares the 32-bit index. */
  predicate SameSite(exact: bool, lead: Record, r: Record)
  {
    if exact then r.position == lead.position else U32(r.position) == U32(lead.position)
  }

  /** How many records at the front of `rest` continue `lead`'s group. */
  function RunLength(exact: bool, lead: Record, rest: seq<Record>): (n: nat)
    ensures n <= |rest|
    ensures n < |rest| ==> !SameSite(exact, lead, rest[n])
  {
    if rest == [] || !SameSite(exact, lead, rest[0]) then 0
    else 1 + RunLength(exact, lead, rest[1..])
  }

  /** Every record inside the run continues the group. */
  lemma {:induction false} InRun(exact: bool, lead: Record, rest: seq<Record>, i: nat)
    requires i < RunLength(exact, lead, rest)
    ensures SameSite(exact, lead, rest[i])
  {
    if i > 0 {
      InRun(exact, lead, rest[1..], i - 1);
    }
  }

  /** The kept alternate alleles of `rs`, record after record. */
  function Alts(rs: seq<Record>): seq<string>
  {
    if rs == [] then [] else Alts(rs[..|rs| - 1]) + KeptOf(rs[|rs| - 1].alt)
  }

  /** The group opened by `lead` when `rest` follows it: the kept alleles of
      `lead`, then the kept alternates of the records that continue it. */
  function GroupAt(exact: bool, lead: Record, rest: seq<Record>): Group
  {
    Group(U32(lead.position), KeptOf(Alleles(lead)) + Alts(rest[..RunLength(exact, lead, rest)]))
  }

  /** The record that ends `lead`'s group (it opens the next group), if any. */
  function After(exact: bool, lead: Record, rest: seq<Record>): Option<Record>
  {
    var n := RunLength(exact, lead, rest);
    if n < |rest| then Some(rest[n]) else None
  }

  /** The records still unread once `lead`'s group and the record ending it
      have been read. */
  function Beyond(exact: bool, lead: Record, rest: seq<Record>): seq<Record>
  {
    var n := RunLength(exact, lead, rest);
    if n < |rest| then rest[n + 1..] else []
  }

  /** The groups opened by the buffered record `pending` and by the records
      after it. */
  function Following(pending: Option<Record>, rest: seq<Record>): seq<Group>
    decreases |rest| + if pending.Some? then 1 else 0
  {
    match pending
    case None => []
    case Some(lead) =>
      [GroupAt(false, lead, rest)] + Following(After(false, lead, rest), Beyond(false, lead, rest))
  }

  /** The groups of a whole record stream, in record order. */
  function Groups(records: seq<Record>): seq<Group>
  {
    if records == [] then []
    else
      var lead, rest := records[0], records[1..];
      [GroupAt(true, lead, rest)] + Following(After(true, lead, rest), Beyond(true, lead, rest))
  }

  /** Appends the kept alleles of `alleles` to `v`, in order. */
  method AppendKept(v: seq<string>, alleles: seq<string>) returns (w: seq<string>)
    ensures w == v + KeptOf(alleles)
  {
    w := v;
    for j := 0 to |alleles|
      invariant w == v + KeptOf(alleles[..j])
    {
      var a := alleles[j];
      assert alleles[..j + 1] == alleles[..j] + [a];
      SelectAppend(alleles[..j], [a], Kept);
      if |a| == 0 || a[0] != '<' {
        w := w + [a];
      }
    }
    assert alleles[..|alleles|] == alleles;
  }

  /** Reads the group that `lead` opens from the record stream `stream`:
      collects the kept alleles of `lead`, then reads record after record,
      appending the kept alternates of each one at the same site, until a
      record at another site (returned as `pending`) or the end of the
      stream. `unread` is what is left of the stream. */
  method ReadGroup(lead: Record, stream: seq<Record>, exact: bool)
    returns (alleles: seq<string>, unread: seq<Record>, pending: Option<Record>)
    ensures alleles == GroupAt(exact, lead, stream).alleles
    ensures pending == After(exact, lead, stream)
    ensures unread == Beyond(exact, lead, stream)
  {
    alleles := AppendKept([], Alleles(lead));
    unread := stream;
    pending := None;
    ghost var m := 0;
    while unread != []
      invariant m <= |stream| && unread == stream[m..]
      invariant m <= RunLength(exact, lead, stream)
      invariant alleles == KeptOf(Alleles(lead)) + Alts(stream[..m])
      decreases |unread|
    {
      var r := unread[0];
      unread := unread[1..];
      if SameSite(exact, lead, r) {
        RunGrows(exact, lead, stream, m);
        AppendAssoc(KeptOf(Alleles(lead)), Alts(stream[..m]), KeptOf(r.alt));
        alleles := AppendKept(alleles, r.alt);
        m := m + 1;
      } else {
        pending := Some(r);
        RunStops(exact, lead, stream, m);
        return;
      }
    }
    RunExhausted(exact, lead, stream);
  }

  /** A record at the same site extends the run by its kept alternates. */
  lemma RunGrows(exact: bool, lead: Record, rest: seq<Record>, m: nat)
    requires m < |rest| && m <= RunLength(exact, lead, rest)
    requires SameSite(exact, lead, rest[m])
    ensures m + 1 <= RunLength(exact, lead, rest)
    ensures Alts(rest[..m + 1]) == Alts(rest[..m]) + KeptOf(rest[m].alt)
  {
    assert rest[..m + 1][..m] == rest[..m];
  }

  /** A record at another site ends the run: it is the one buffered and the
      records after it are still unread. */
  lemma RunStops(exact: bool, lead: Record, rest: seq<Record>, m: nat)
    requires m < |rest| && m <= RunLength(exact, lead, rest)
    requires !SameSite(exact, lead, rest[m])
    ensures GroupAt(exact, lead, rest).alleles == KeptOf(Alleles(lead)) + Alts(rest[..m])
    ensures After(exact, lead, rest) == Some(rest[m])
    ensures Beyond(exact, lead, rest) == rest[m + 1..]
  {
    assert RunLength(exact, lead, rest) == m by {
      if m < RunLength(exact, lead, rest) {
        InRun(exact, lead, rest, m);
      }
    }
  }

  /** A run that reaches the end of the stream leaves nothing buffered. */
  lemma RunExhausted(exact: bool, lead: Record, rest: seq<Record>)
    requires |rest| <= RunLength(exact, lead, rest)
    ensures GroupAt(exact, lead, rest).alleles == KeptOf(Alleles(lead)) + Alts(rest)
    ensures After(exact, lead, rest) == None
    ensures Beyond(exact, lead, rest) == []
  {
    assert rest[..|rest|] == rest;
  }

  /** A lone record forms one group at its index, holding its kept alleles,
      the reference allele first. */
  lemma SingleGroup(r: Record)
    ensures Groups([r]) == [Group(U32(r.position), KeptOf(Alleles(r)))]
  {
    var rest: seq<Record> := [];
    assert [r][1..] == rest;
    assert RunLength(true, r, rest) == 0 && rest[..0] == [];
    assert Alts([]) == [] && KeptOf(Alleles(r)) + [] == KeptOf(Alleles(r));
    assert After(true, r, rest) == None && Following(None, Beyond(true, r, rest)) == [];
  }

  /** Two records at the same position form a single group: the kept
      alleles of the first, then the kept alternates of the second, with
      nothing deduplicated. */
  lemma DuplicateMerge(r1: Record, r2: Record)
    requires r2.position == r1.position
    ensures Groups([r1, r2]) == [Group(U32(r1.position), KeptOf(Alleles(r1)) + KeptOf(r2.alt))]
  {
    var rest := [r2];
    assert [r1, r2][1..] == rest;
    assert RunLength(true, r1, rest) == 1 by {
      assert rest[1..] == [];
    }
    assert rest[..1] == rest;
    assert Alts(rest) == Alts([]) + KeptOf(r2.alt) by {
      assert rest[..0] == [];
    }
    assert Alts([]) + KeptOf(r2.alt) == KeptOf(r2.alt);
  }

  /** Every allele of every group is kept: symbolic alleles never reach the
      output. */
  ghost predicate AllKept(gs: seq<Group>)
  {
    forall j, a :: 0 <= j < |gs| && a in gs[j].alleles ==> Kept(a)
  }

  /** The alternates gathered from continuing records are all kept ones. */
  lemma {:induction false} AltsKept(rs: seq<Record>)
    ensures forall a :: a in Alts(rs) ==> Kept(a)
  {
    if rs != [] {
      AltsKept(rs[..|rs| - 1]);
      SelectKeeps(rs[|rs| - 1].alt, Kept);
    }
  }

  lemma GroupAtKept(exact: bool, lead: Record, rest: seq<Record>)
    ensures forall a :: a in GroupAt(exact, lead, rest).alleles ==> Kept(a)
  {
    SelectKeeps(Alleles(lead), Kept);
    AltsKept(rest[..RunLength(exact, lead, rest)]);
  }

  lemma {:induction false} FollowingKept(pending: Option<Record>, rest: seq<Record>)
    ensures AllKept(Following(pending, rest))
    decreases |rest| + if pending.Some? then 1 else 0
  {
    if pending.Some? {
      var lead := pending.value;
      GroupAtKept(false, lead, rest);
      FollowingKept(After(false, lead, rest), Beyond(false, lead, rest));
    }
  }

  /** No symbolic allele (one starting with `<`) is in any group. */
  lemma GroupsKept(records: seq<Record>)
    ensures AllKept(Groups(records))
  {
    if records != [] {
      GroupAtKept(true, records[0], records[1..]);
      FollowingKept(After(true, records[0], records[1..]), Beyond(true, records[0], records[1..]));
    }
  }

  /** One step of record-by-record consolidation: a record at the index of
      the open (last) group adds its kept alternates to it; any other record
      opens a new group with all its kept alleles. */
  function Absorb(gs: seq<Group>, r: Record): seq<Group>
  {
    var site := U32(r.position);
    if |gs| > 0 && gs[|gs| - 1].site == site
    then gs[..|gs| - 1] + [Group(site, gs[|gs| - 1].alleles + KeptOf(r.alt))]
    else gs + [Group(site, KeptOf(Alleles(r)))]
  }

  /** The groups of a record stream, built one record at a time. */
  function Consolidate(records: seq<Record>): seq<Group>
  {
    if records == [] then [] else Absorb(Consolidate(records[..|records| - 1]), records[|records| - 1])
  }

  lemma ConsolidateSnoc(records: seq<Record>, r: Record)
    ensures Consolidate(records + [r]) == Absorb(Consolidate(records), r)
  {
    assert (records + [r])[..|records|] == records;
  }

  /** Consolidating the records that continue `lead`'s group grows that one
      group and nothing else. */
  lemma {:induction false} RunAbsorbed(pre: seq<Record>, lead: Record, rest: seq<Record>, gs: seq<Group>, m: nat)
    requires m <= RunLength(false, lead, rest)
    requires Consolidate(pre + [lead]) == gs + [Group(U32(lead.position), KeptOf(Alleles(lead)))]
    ensures Consolidate(pre + [lead] + rest[..m])
         == gs + [Group(U32(lead.position), KeptOf(Alleles(lead)) + Alts(rest[..m]))]
  {
    var site := U32(lead.position);
    if m == 0 {
      assert pre + [lead] + rest[..0] == pre + [lead];
      assert Alts(rest[..0]) == [];
      assert KeptOf(Alleles(lead)) + [] == KeptOf(Alleles(lead));
    } else {
      RunAbsorbed(pre, lead, rest, gs, m - 1);
      var r := rest[m - 1];
      var before := KeptOf(Alleles(lead)) + Alts(rest[..m - 1]);
      assert rest[..m] == rest[..m - 1] + [r];
      AppendAssoc(pre + [lead], rest[..m - 1], [r]);
      ConsolidateSnoc(pre + [lead] + rest[..m - 1], r);
      InRun(false, lead, rest, m - 1);
      var open := gs + [Group(site, before)];
      assert open[..|open| - 1] == gs;
      assert Absorb(open, r) == gs + [Group(site, before + KeptOf(r.alt))];
      assert rest[..m][..m - 1] == rest[..m - 1];
      AppendAssoc(KeptOf(Alleles(lead)), Alts(rest[..m - 1]), KeptOf(r.alt));
    }
  }

  /** Consolidating the buffered record and everything after it appends
      exactly the groups `Following` reads. */
  lemma {:induction false} FollowingConsolidates(pre: seq<Record>, lead: Record, rest: seq<Record>, gs: seq<Group>)
    requires Consolidate(pre + [lead]) == gs + [Group(U32(lead.position), KeptOf(Alleles(lead)))]
    ensures Consolidate(pre + [lead] + rest) == gs + Following(Some(lead), rest)
    decreases |rest|
  {
    var n := RunLength(false, lead, rest);
    var g := GroupAt(false, lead, rest);
    RunAbsorbed(pre, lead, rest, gs, n);
    if n == |rest| {
      assert rest[..n] == rest;
      assert Following(Some(lead), rest) == [g] + [];
    } else {
      var next := rest[n];
      var pre' := pre + [lead] + rest[..n];
      assert Consolidate(pre' + [next]) == (gs + [g]) + [Group(U32(next.position), KeptOf(Alleles(next)))] by {
        assert !SameSite(false, lead, next);
        assert (gs + [g])[|gs + [g]| - 1] == g;
        ConsolidateSnoc(pre', next);
      }
      FollowingConsolidates(pre', next, rest[n + 1..], gs + [g]);
      Regroup(pre + [lead], rest, n);
      assert Following(Some(lead), rest) == [g] + Following(Some(next), rest[n + 1..]) by {
        RunStops(false, lead, rest, n);
      }
      AppendAssoc(gs, [g], Following(Some(next), rest[n + 1..]));
    }
  }

  /** Cutting `rest` around index `n` and gluing the pieces back onto `a`. */
  lemma Regroup<T>(a: seq<T>, rest: seq<T>, n: nat)
    requires n < |rest|
    ensures a + rest[..n] + [rest[n]] + rest[n + 1..] == a + rest
  {
    SplitAround(rest, n);
    AppendAssoc(a, rest[..n], [rest[n]]);
    AppendAssoc(a, rest[..n] + [rest[n]], rest[n + 1..]);
    AppendAssoc(rest[..n], [rest[n]], rest[n + 1..]);
  }

  /** Where full positions and 32-bit indices agree, the first group's
      comparison gives the same run as every later group's. */
  lemma {:induction false} RunLengthExact(lead: Record, rest: seq<Record>)
    requires 0 <= lead.position < Wrap
    requires forall i :: 0 <= i < |rest| ==> 0 <= rest[i].position < Wrap
    ensures RunLength(true, lead, rest) == RunLength(false, lead, rest)
  {
    if rest != [] {
      RunLengthExact(lead, rest[1..]);
    }
  }

  /** For positions that fit in 32 bits, the groups read from a record stream
      are exactly what record-by-record consolidation builds: each group is a
      maximal run of records at one position, holding the kept alleles of its
      first record followed by the kept alternates of the others, in order. */
  lemma {:induction false} GroupsConsolidate(records: seq<Record>)
    requires forall i :: 0 <= i < |records| ==> 0 <= records[i].position < Wrap
    ensures Groups(records) == Consolidate(records)
  {
    if records != [] {
      var lead, rest := records[0], records[1..];
      RunLengthExact(lead, rest);
      assert GroupAt(true, lead, rest) == GroupAt(false, lead, rest);
      assert After(true, lead, rest) == After(false, lead, rest);
      assert Beyond(true, lead, rest) == Beyond(false, lead, rest);
      assert Groups(records) == Following(Some(lead), rest);
      assert Consolidate([lead]) == [] + [Group(U32(lead.position), KeptOf(Alleles(lead)))] by {
        assert [lead][..0] == [];
      }
      FollowingConsolidates([], lead, rest, []);
      assert [] + [lead] + rest == records;
      assert [] + Following(Some(lead), rest) == Following(Some(lead), rest);
    }
  }
}
