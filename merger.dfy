/** The single pass that walks the reference sequence and writes the Elastic
    Degenerate String: recognised symbols are copied, and the symbol at each
    group's site is replaced by that group's allele set. */
module Merger {
  import opened Basics
  import opened Segments
  import opened Variants

  /** The symbols that count as reference positions: the four bases and N. */
  predicate IsSymbol(c: char)
  {
    c == 'A' || c == 'C' || c == 'G' || c == 'T' || c == 'N'
  }

  /** The recognised symbols of a text, in order; everything else is skipped. */
  function Recognized(s: string): string
  {
    Select(s, IsSymbol)
  }

  /** The reference text up to, not including, its first NUL character, which
      the reader takes for the end of the input. */
  function UpToNul(s: string): (r: string)
    ensures r <= s
    ensures '\0' !in r
    ensures |r| < |s| ==> s[|r|] == '\0'
  {
    if s == [] || s[0] == '\0' then [] else [s[0]] + UpToNul(s[1..])
  }

  /** The reference file after its first line (the FASTA header) and the
      newline ending it; a file without a newline is all header. */
  function AfterHeader(file: string): (body: string)
    ensures '\n' !in file ==> body == []
    ensures '\n' in file ==> |body| < |file|
                              && file[|file| - |body| - 1] == '\n'
                              && file[|file| - |body|..] == body
                              && '\n' !in file[..|file| - |body| - 1]
  {
    if file == [] then []
    else if file[0] == '\n' then file[1..]
    else
      assert file == [file[0]] + file[1..];
      AfterHeader(file[1..])
  }

  /** Whatever the header holds, the body after its newline is read intact. */
  lemma HeaderSkipped(header: string, body: string)
    requires '\n' !in header
    ensures AfterHeader(header + "\n" + body) == body
  {
    var file := header + "\n" + body;
    assert file[|header|] == '\n';
    assert file[..|header|] == header;
  }

  /** What a group writes at its site: its allele set, or nothing when every
      allele was dropped. */
  function Render(alleles: seq<string>): string
  {
    if |alleles| > 0 then Token(alleles) else ""
  }

  /** The text written for the recognised symbols `syms`, the first of which
      has index `idx`, while `gs` are the groups still to come: the symbol
      whose index is the next group's site is replaced by that group. */
  function Merge(syms: string, gs: seq<Group>, idx: nat): string
    decreases |syms|
  {
    if syms == [] then ""
    else if gs != [] && gs[0].site == idx then Render(gs[0].alleles) + Merge(syms[1..], gs[1..], idx + 1)
    else [syms[0]] + Merge(syms[1..], gs, idx + 1)
  }

  /** A symbol whose index is not the next group's site is copied. */
  lemma StepLiteral(syms: string, gs: seq<Group>, idx: nat)
    requires syms != [] && (gs == [] || gs[0].site != idx)
    ensures Merge(syms, gs, idx) == [syms[0]] + Merge(syms[1..], gs, idx + 1)
  {
  }

  /** The symbol at the next group's site is replaced by the group. */
  lemma StepSite(syms: string, gs: seq<Group>, idx: nat)
    requires syms != [] && gs != [] && gs[0].site == idx
    ensures Merge(syms, gs, idx) == Render(gs[0].alleles) + Merge(syms[1..], gs[1..], idx + 1)
  {
  }

  /** The groups still to come, as the merge loop holds them: the group
      loaded for site `vfIdx` (while it is live), then those opened by the
      buffered record and the unread records. */
  ghost function Pending(live: bool, vfIdx: nat, vAlleles: seq<string>, vBuffer: Option<Record>,
                         unread: seq<Record>): seq<Group>
  {
    (if live then [Group(vfIdx, vAlleles)] else []) + Following(vBuffer, unread)
  }

  /** Loading the group that the buffered record `lead` opens leaves the
      groups to come unchanged. */
  lemma LoadPending(lead: Record, unread: seq<Record>, alleles: seq<string>,
                    pending: Option<Record>, later: seq<Record>)
    requires alleles == GroupAt(false, lead, unread).alleles
    requires pending == After(false, lead, unread) && later == Beyond(false, lead, unread)
    ensures Following(Some(lead), unread) == Pending(true, U32(lead.position), alleles, pending, later)
  {
  }

  /** Loading the first group before the loop yields all groups of the stream. */
  lemma LoadFirst(records: seq<Record>, alleles: seq<string>, pending: Option<Record>, later: seq<Record>)
    requires |records| > 0
    requires alleles == GroupAt(true, records[0], records[1..]).alleles
    requires pending == After(true, records[0], records[1..]) && later == Beyond(true, records[0], records[1..])
    ensures Groups(records) == Pending(true, U32(records[0].position), alleles, pending, later)
  {
  }

  /** Reading one more character of the reference: a recognised symbol
      comes first in the stream still to read, anything else is skipped. */
  lemma StreamStep(reference: string, p: nat)
    requires p < |reference| && reference[p] != '\0'
    ensures var s, s' := Recognized(UpToNul(reference[p..])), Recognized(UpToNul(reference[p + 1..]));
            if IsSymbol(reference[p]) then |s| > 0 && s[0] == reference[p] && s[1..] == s' else s == s'
  {
    var rest := UpToNul(reference[p + 1..]);
    assert reference[p..][1..] == reference[p + 1..];
    assert UpToNul(reference[p..]) == [reference[p]] + rest;
    assert ([reference[p]] + rest)[1..] == rest;
  }

  lemma StreamEnd(reference: string, p: nat)
    requires p <= |reference|
    requires p == |reference| || reference[p] == '\0'
    ensures Recognized(UpToNul(reference[p..])) == ""
  {
  }

  /** Writes the literal buffer, when it holds anything, as a one-string
      segment. */
  method FlushLiteral(out: string, tBuff: string) returns (w: string)
    ensures w == out + tBuff
  {
    w := out;
    if |tBuff| > 0 {
      w := Output(w, [tBuff]);
    }
  }

  /** Appends one literal symbol to the buffer, writing the buffer out once
      its counter reaches `bufferSize`. Buffering never changes the text: what
      is written plus what is buffered grows by exactly `c`. */
  method PushLiteral(out: string, tBuff: string, i: nat, c: char, bufferSize: nat)
    returns (out': string, tBuff': string, i': nat)
    requires |tBuff| <= i < bufferSize
    ensures out' + tBuff' == out + tBuff + [c]
    ensures |tBuff'| <= i' < bufferSize
    ensures i + 1 < bufferSize ==> out' == out && i' == i + 1
    ensures i + 1 >= bufferSize ==> tBuff' == "" && i' == 0
  {
    out', tBuff', i' := out, tBuff + [c], i + 1;
    if i' >= bufferSize {
      out' := Output(out', [tBuff']);
      tBuff' := "";
      i' := 0;
    }
  }

  /** Writes a group's allele set, unless every allele was dropped. */
  method EmitGroup(out: string, alleles: seq<string>) returns (w: string)
    ensures w == out + Render(alleles)
  {
    w := out;
    if |alleles| > 0 {
      w := Output(w, alleles);
    }
  }

  /** Fetches the next group once the current one is written: when a record
      is buffered, the group it opens becomes the current one, waiting for the
      index of its position; otherwise the current index stays and nothing is
      left to wait for. The groups still to come are the same before and
      after. */
  method LoadNext(vfIdx: nat, vBuffer: Option<Record>, stream: seq<Record>)
    returns (vfIdx': nat, vAlleles: seq<string>, unread: seq<Record>, vBuffer': Option<Record>, loaded: bool)
    ensures loaded == vBuffer.Some?
    ensures !loaded ==> vfIdx' == vfIdx && vBuffer' == None && vAlleles == []
    ensures Following(vBuffer, stream) == Pending(loaded, vfIdx', vAlleles, vBuffer', unread)
  {
    vfIdx', vAlleles, unread, vBuffer', loaded := vfIdx, [], stream, None, false;
    if vBuffer.Some? {
      var lead := vBuffer.value;
      vfIdx' := U32(lead.position);
      vAlleles, unread, vBuffer' := ReadGroup(lead, stream, false);
      loaded := true;
      LoadPending(lead, stream, vAlleles, vBuffer', unread);
    }
  }

  /** Converts a reference sequence (its header line already removed) and a
      stream of variant records into EDS text. Literal symbols are collected
      in a buffer that is written whenever it reaches `bufferSize` symbols,
      before each group, and at the end. */
  method Convert(reference: string, records: seq<Record>, bufferSize: nat) returns (out: string)
    requires bufferSize > 0
    ensures out == Merge(Recognized(UpToNul(reference)), Groups(records), 1)
  {
    out := "";
    var tBuff := "";
    var rfIdx: nat, vfIdx: nat, i: nat := 1, 0, 0;
    var vAlleles: seq<string> := [];
    var vBuffer: Option<Record> := None;
    var unread := records;
    ghost var live := false;

    if |records| > 0 {
      var first := records[0];
      vfIdx := U32(first.position);
      vAlleles, unread, vBuffer := ReadGroup(first, records[1..], true);
      live := true;
      LoadFirst(records, vAlleles, vBuffer, unread);
    }
    // the symbols still to read and the groups still to write
    ghost var todo := Recognized(UpToNul(reference));
    ghost var gs := Pending(live, vfIdx, vAlleles, vBuffer, unread);
    assert gs == Groups(records);
    ghost var target := Merge(todo, gs, 1);
    assert reference[0..] == reference;

    var p := 0;
    while p < |reference| && reference[p] != '\0'
      invariant 0 <= p <= |reference|
      invariant |tBuff| <= i < bufferSize
      invariant !live ==> vBuffer == None && vfIdx < rfIdx
      invariant todo == Recognized(UpToNul(reference[p..]))
      invariant gs == Pending(live, vfIdx, vAlleles, vBuffer, unread)
      invariant target == out + tBuff + Merge(todo, gs, rfIdx)
      decreases |reference| - p
    {
      var c := reference[p];
      StreamStep(reference, p);
      p := p + 1;
      if !IsSymbol(c) {
        continue;
      }
      ghost var syms := todo;
      todo := todo[1..];

      if rfIdx != vfIdx {
        StepLiteral(syms, gs, rfIdx);
        ghost var after := Merge(todo, gs, rfIdx + 1);
        AppendAssoc(out + tBuff, [c], after);
        out, tBuff, i := PushLiteral(out, tBuff, i, c, bufferSize);
      } else {
        assert live;
        StepSite(syms, gs, rfIdx);
        assert gs[0] == Group(vfIdx, vAlleles);
        ghost var after := Merge(todo, gs[1..], rfIdx + 1);
        gs := gs[1..];
        assert gs == Following(vBuffer, unread);
        ghost var written := out + tBuff + Render(vAlleles);
        AppendAssoc(out + tBuff, Render(vAlleles), after);
        out := FlushLiteral(out, tBuff);
        tBuff := "";
        out := EmitGroup(out, vAlleles);
        vAlleles := [];
        assert written == out + tBuff;
        vfIdx, vAlleles, unread, vBuffer, live := LoadNext(vfIdx, vBuffer, unread);
      }
      rfIdx := rfIdx + 1;
    }

    StreamEnd(reference, p);
    out := FlushLiteral(out, tBuff);
  }

  /** Converts a whole reference file: its header line is skipped and the
      rest is read as in `Convert`. */
  method ConvertFile(file: string, records: seq<Record>, bufferSize: nat) returns (out: string)
    requires bufferSize > 0
    ensures out == Merge(Recognized(UpToNul(AfterHeader(file))), Groups(records), 1)
  {
    out := Convert(AfterHeader(file), records, bufferSize);
  }

  /** A group whose site lies below the current index, or beyond the last
      symbol, is never written, and it keeps every later group from being
      written too: the symbols come out unchanged. With no groups at all the
      output is the recognised reference itself. */
  lemma {:induction false} MergeMiss(syms: string, gs: seq<Group>, idx: nat)
    requires gs == [] || gs[0].site < idx || gs[0].site >= idx + |syms|
    ensures Merge(syms, gs, idx) == syms
  {
    if syms != [] {
      MergeMiss(syms[1..], gs, idx + 1);
      assert [syms[0]] + syms[1..] == syms;
    }
  }

  /** A group whose site is the index of one of the symbols still to come:
      every symbol before it is copied in order, that one symbol is replaced
      by the group's allele set, and the merge carries on after it with the
      remaining groups. */
  lemma {:induction false} MergeHit(syms: string, gs: seq<Group>, idx: nat)
    requires gs != [] && idx <= gs[0].site < idx + |syms|
    ensures var d := gs[0].site - idx;
            Merge(syms, gs, idx) == syms[..d] + Render(gs[0].alleles) + Merge(syms[d + 1..], gs[1..], gs[0].site + 1)
  {
    var d := gs[0].site - idx;
    if d > 0 {
      MergeHit(syms[1..], gs, idx + 1);
      assert syms[1..][..d - 1] == syms[1..d];
      assert syms[1..][d..] == syms[d + 1..];
      assert [syms[0]] + syms[1..d] == syms[..d];
      AppendAssoc([syms[0]], syms[1..d], Render(gs[0].alleles));
      AppendAssoc([syms[0]], syms[1..d] + Render(gs[0].alleles), Merge(syms[d + 1..], gs[1..], gs[0].site + 1));
    }
  }

  /** A single group at a site inside the reference (as `SingleGroup` gives
      for one variant record): the symbol at that site is replaced by the
      group's allele set and every other symbol is copied. */
  lemma OneGroup(syms: string, g: Group)
    requires 1 <= g.site <= |syms|
    ensures Merge(syms, [g], 1) == syms[..g.site - 1] + Render(g.alleles) + syms[g.site..]
  {
    MergeHit(syms, [g], 1);
    assert [g][1..] == [];
    MergeMiss(syms[g.site..], [], g.site + 1);
  }
}
