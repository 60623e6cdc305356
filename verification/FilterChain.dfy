/**
 The filter chain option of the x264 command line, "name:options/name:options/...": the loop of
 `init_vid_filters` cuts it up in place, by writing terminators over the separators.
 */
module FilterChain {
  import opened Sequences

  const NUL := '\0'

  /** A filter and its option string. */
  datatype Filter = Filter(name: string, options: string)

  // ----- the chain as a string

  /** The first place of `c`, or the length when there is none. */
  function IndexOf(s: string, c: char): (k: nat)
    ensures k <= |s|
    ensures forall i :: 0 <= i < k ==> s[i] != c
    ensures k < |s| ==> s[k] == c
  {
    if s == "" || s[0] == c then 0 else 1 + IndexOf(s[1..], c)
  }

  /** A piece between two slashes, divided at its first colon. */
  function Divide(piece: string): (f: Filter) {
    var c := IndexOf(piece, ':');
    Filter(piece[..c], if c < |piece| then piece[c + 1..] else "")
  }

  /** Everything before the first slash. */
  function Piece(s: string): (r: string) {
    s[..IndexOf(s, '/')]
  }

  /** The first piece and its slash, if there is one. */
  function HeadLength(s: string): (n: nat)
    ensures n <= |s| && (s != "" ==> n > 0)
  {
    if IndexOf(s, '/') < |s| then IndexOf(s, '/') + 1 else |s|
  }

  /** The pieces between slashes; an empty one at the very end does not count. */
  function Parse(s: string): (fs: seq<Filter>)
    decreases |s|
  {
    if s == "" then [] else [Divide(Piece(s))] + Parse(s[HeadLength(s)..])
  }

  /** One filter as it is written; the colon only with options. */
  function Print(f: Filter): (s: string) {
    if f.options == "" then f.name else f.name + ":" + f.options
  }

  function PrintAll(fs: seq<Filter>): (s: string) {
    if fs == [] then ""
    else if |fs| == 1 then Print(fs[0])
    else Print(fs[0]) + "/" + PrintAll(fs[1..])
  }

  /** No separator where it would be taken for one. */
  predicate Clean(f: Filter) {
    '/' !in f.name && ':' !in f.name && '/' !in f.options
  }

  ghost predicate AllClean(fs: seq<Filter>) {
    forall i :: 0 <= i < |fs| ==> Clean(fs[i])
  }

  /** Every filter is clean, and the last one is not written as nothing. */
  ghost predicate Printable(fs: seq<Filter>) {
    && AllClean(fs)
    && (fs != [] ==> fs[|fs| - 1] != Filter("", ""))
  }

  lemma IndexOfFirst(s: string, c: char, k: nat)
    requires k <= |s| && (forall i :: 0 <= i < k ==> s[i] != c) && (k < |s| ==> s[k] == c)
    ensures IndexOf(s, c) == k
  {
  }

  lemma DividePrint(f: Filter)
    requires Clean(f)
    ensures Divide(Print(f)) == f && '/' !in Print(f)
  {
    var s := Print(f);
    if f.options == "" {
      IndexOfFirst(s, ':', |f.name|);
    } else {
      assert s[|f.name|] == ':';
      IndexOfFirst(s, ':', |f.name|);
      assert s[|f.name| + 1..] == f.options;
    }
  }

  /** The first colon divides, and without one there are no options. */
  lemma DivideAtColon(name: string, options: string)
    requires ':' !in name
    ensures Divide(name + ":" + options) == Filter(name, options)
    ensures Divide(name) == Filter(name, "")
  {
    var s := name + ":" + options;
    assert s[|name|] == ':';
    IndexOfFirst(s, ':', |name|);
    IndexOfFirst(name, ':', |name|);
    assert s[|name| + 1..] == options;
  }

  lemma DivideClean(piece: string)
    requires '/' !in piece
    ensures Clean(Divide(piece))
  {
  }

  lemma {:induction false} ParseClean(s: string)
    ensures AllClean(Parse(s))
    decreases |s|
  {
    if s != "" {
      DivideClean(Piece(s));
      hide Clean, Divide, Piece, HeadLength;
      ParseClean(s[HeadLength(s)..]);
      var rest := Parse(s[HeadLength(s)..]);
      assert Parse(s) == [Divide(Piece(s))] + rest;
    }
  }

  /** Only an empty filter at the very end of a clean list gets lost. */
  function Kept(fs: seq<Filter>): (r: seq<Filter>) {
    if fs != [] && fs[|fs| - 1] == Filter("", "") then fs[..|fs| - 1] else fs
  }

  lemma ParsePiece(first: string, rest: string, more: bool)
    requires '/' !in first && (more || (rest == "" && first != ""))
    ensures Parse(if more then first + "/" + rest else first)
            == [Divide(first)] + (if more then Parse(rest) else [])
  {
    var s := if more then first + "/" + rest else first;
    if more {
      assert s[|first|] == '/';
    }
    IndexOfFirst(s, '/', |first|);
    assert s[..|first|] == first;
    if more {
      assert s[|first| + 1..] == rest;
    }
  }

  lemma {:induction false} ParsePrinted(fs: seq<Filter>)
    requires AllClean(fs)
    ensures Parse(PrintAll(fs)) == Kept(fs)
  {
    if fs != [] {
      DividePrint(fs[0]);
      if |fs| == 1 {
        PrintEmpty(fs[0]);
        assert fs == [fs[0]];
        if fs[0] != Filter("", "") {
          ParsePiece(Print(fs[0]), "", false);
        }
      } else {
        hide *;
        ParsePiece(Print(fs[0]), PrintAll(fs[1..]), true);
        ParsePrinted(fs[1..]);
        KeptCons(fs);
        PrintCons(fs);
      }
    }
  }

  lemma KeptCons(fs: seq<Filter>)
    requires |fs| >= 2
    ensures Kept(fs) == [fs[0]] + Kept(fs[1..])
  {
    var rest := fs[1..];
    assert rest[|rest| - 1] == fs[|fs| - 1];
    assert fs == [fs[0]] + rest;
    if Kept(fs) != fs {
      assert fs[..|fs| - 1] == [fs[0]] + rest[..|rest| - 1];
    }
  }

  lemma PrintCons(fs: seq<Filter>)
    requires |fs| >= 2
    ensures PrintAll(fs) == Print(fs[0]) + "/" + PrintAll(fs[1..])
  {
  }

  lemma PrintEmpty(f: Filter)
    ensures Print(f) == "" <==> f == Filter("", "")
    ensures Parse("") == []
  {
  }

  /** Round trip, exactly: a list is recovered from its printed form if and only if it is printable. */
  lemma {:induction false} ParsePrintAll(fs: seq<Filter>)
    ensures Parse(PrintAll(fs)) == fs <==> Printable(fs)
  {
    hide Parse, PrintAll, Clean;
    ParseClean(PrintAll(fs));
    if AllClean(fs) {
      ParsePrinted(fs);
    }
  }

  // ----- the loop, in place

  /** The C string at `p` in a buffer. */
  function CString(b: seq<char>, p: nat): (s: string)
    requires p <= |b|
  {
    b[p..][..IndexOf(b[p..], NUL)]
  }

  /** `strcspn(p, c)` in a buffer with a terminator at `end`. */
  method Strcspn(a: array<char>, p: nat, c: char, ghost end: nat) returns (k: nat)
    requires p <= end < a.Length && a[end] == NUL
    ensures p + k <= end
    ensures a[p + k] == c || a[p + k] == NUL
    ensures forall i :: p <= i < p + k ==> a[i] != c && a[i] != NUL
  {
    k := 0;
    while a[p + k] != c && a[p + k] != NUL
      invariant p + k <= end
      invariant forall i :: p <= i < p + k ==> a[i] != c && a[i] != NUL
      decreases end - (p + k)
    {
      k := k + 1;
    }
  }

  /** A piece after its division: its first colon is a terminator. */
  function CutPiece(piece: string): (s: string)
    ensures |s| == |piece|
  {
    var c := IndexOf(piece, ':');
    if c < |piece| then piece[c := NUL] else piece
  }

  /** The first piece and its slash after the division. */
  function CutHead(s: string): (r: string)
    ensures |r| == HeadLength(s)
  {
    CutPiece(Piece(s)) + (if IndexOf(s, '/') < |s| then [NUL] else "")
  }

  /** The whole chain after its division: each slash, and the first colon of each piece, is a terminator. */
  function Cut(s: string): (r: string)
    ensures |r| == |s|
    decreases |s|
  {
    if s == "" then "" else CutHead(s) + Cut(s[HeadLength(s)..])
  }

  lemma CStringEnds(b: seq<char>, p: nat, k: nat)
    requires p + k < |b| && b[p + k] == NUL && forall i :: p <= i < p + k ==> b[i] != NUL
    ensures CString(b, p) == b[p..p + k]
  {
    IndexOfFirst(b[p..], NUL, k);
  }

  /** `b` after the two stores of one round, the first at the end of a piece, the second at its first colon. */
  function Stored(b: seq<char>, slash: nat, colon: nat): (r: seq<char>)
    requires colon <= slash < |b|
    ensures |r| == |b|
  {
    b[slash := NUL][colon := NUL]
  }

  /** The string at `p`, up to a terminator at `end`. */
  ghost predicate StringAt(b: seq<char>, p: nat, end: nat) {
    p <= end < |b| && b[end] == NUL && NUL !in b[p..end]
  }

  lemma NoTerminatorInside(b: seq<char>, p: nat, end: nat)
    requires StringAt(b, p, end)
    ensures forall i :: p <= i < end ==> b[i] != NUL
  {
    assert forall i :: p <= i < end ==> b[i] == b[p..end][i - p];
  }

  /** The stores leave everything else as it is. */
  lemma StoredElsewhere(b: seq<char>, slash: nat, colon: nat, i: nat, j: nat)
    requires colon <= slash < |b| && i <= j <= slash && (j <= colon || colon < i)
    ensures var r := Stored(b, slash, colon);
            && r[slash] == NUL && r[colon] == NUL
            && r[i..j] == b[i..j]
            && forall k :: i <= k < j ==> r[k] == b[k]
  {
  }

  /** The two C strings the filter is created from. */
  lemma StoredStrings(b: seq<char>, p: nat, slash: nat, colon: nat)
    requires p <= colon <= slash < |b| && forall i :: p <= i < slash ==> b[i] != NUL
    requires colon == p + IndexOf(b[p..slash], ':')
    ensures var r := Stored(b, slash, colon);
            Filter(CString(r, p), CString(r, if colon != slash then colon + 1 else colon)) == Divide(b[p..slash])
  {
    hide IndexOf, CString, Stored;
    var r := Stored(b, slash, colon);
    var piece := b[p..slash];
    StoredElsewhere(b, slash, colon, p, colon);
    CStringEnds(r, p, colon - p);
    assert r[p..colon] == piece[..colon - p];
    if colon != slash {
      StoredElsewhere(b, slash, colon, colon + 1, slash);
      CStringEnds(r, colon + 1, slash - colon - 1);
      assert r[colon + 1..slash] == piece[colon + 1 - p..];
    } else {
      CStringEnds(r, slash, 0);
    }
  }

  /** The buffer after the two stores. */
  lemma StoredBuffer(b: seq<char>, p: nat, slash: nat, colon: nat)
    requires p <= colon <= slash < |b|
    requires colon == p + IndexOf(b[p..slash], ':')
    ensures Stored(b, slash, colon) == b[..p] + CutPiece(b[p..slash]) + [NUL] + b[slash + 1..]
  {
    hide IndexOf;
    var piece := b[p..slash];
    assert b == b[..p] + piece + [b[slash]] + b[slash + 1..];
  }

  /** What the stores and the step forward mean for the chain at `p`. */
  lemma {:induction false} StoredHead(b: seq<char>, p: nat, end: nat, slash: nat)
    requires StringAt(b, p, end) && p <= slash <= end && slash == p + IndexOf(b[p..end], '/')
    ensures b[p..slash] == Piece(b[p..end])
    ensures var next := p + HeadLength(b[p..end]);
            b[..p] + CutPiece(b[p..slash]) + [NUL] + b[slash + 1..] == b[..p] + CutHead(b[p..end]) + b[next..]
  {
    hide IndexOf;
    var s := b[p..end];
    assert Piece(s) == b[p..slash];
    if slash == end {
      assert b[end..] == [NUL] + b[end + 1..];
    }
  }

  lemma IndexInSlice(b: seq<char>, p: nat, end: nat, c: char, k: nat)
    requires p + k <= end <= |b| && (forall i :: p <= i < p + k ==> b[i] != c) && (p + k < end ==> b[p + k] == c)
    ensures IndexOf(b[p..end], c) == k
  {
    IndexOfFirst(b[p..end], c, k);
  }

  /** One round of the loop, on the buffer as a value. */
  lemma {:induction false} TakeResult(b: seq<char>, p: nat, end: nat, slash: nat, colon: nat)
    requires StringAt(b, p, end) && p <= colon <= slash <= end
    requires slash == p + IndexOf(b[p..end], '/') && colon == p + IndexOf(b[p..slash], ':')
    ensures var s, r := b[p..end], b[slash := NUL][colon := NUL];
            && Filter(CString(r, p), CString(r, if colon != slash then colon + 1 else colon)) == Divide(Piece(s))
            && r == b[..p] + CutHead(s) + b[p + HeadLength(s)..]
  {
    hide IndexOf, CString, CutPiece, CutHead, Divide, Piece, HeadLength;
    NoTerminatorInside(b, p, end);
    StoredStrings(b, p, slash, colon);
    StoredBuffer(b, p, slash, colon);
    StoredHead(b, p, end, slash);
  }

  /** One round of the loop: two stores, the two C strings behind them, and where to go on. */
  method TakePiece(a: array<char>, p: nat, ghost end: nat) returns (filter: Filter, next: nat)
    requires StringAt(a[..], p, end) && p < end
    modifies a
    ensures var s := old(a[p..end]);
            && filter == Divide(Piece(s))
            && next == p + HeadLength(s)
            && a[..] == old(a[..p]) + CutHead(s) + old(a[next..])
  {
    hide IndexOf, CString, Divide, CutHead, Piece;
    ghost var b := a[..];
    assert a[p..end] == b[p..end];
    NoTerminatorInside(b, p, end);
    var tokLen := Strcspn(a, p, '/', end);
    var pLen := Strcspn(a, p, NUL, end);
    IndexInSlice(b, p, end, '/', tokLen);
    next := p + (if tokLen + 1 <= pLen then tokLen + 1 else pLen);
    assert next == p + HeadLength(b[p..end]);
    a[p + tokLen] := NUL;
    assert a[..] == b[p + tokLen := NUL];
    var nameLen := Strcspn(a, p, ':', p + tokLen);
    ColonFound(b, p, p + tokLen, nameLen);
    a[p + nameLen] := NUL;
    assert a[..] == b[p + tokLen := NUL][p + nameLen := NUL];
    TakeResult(b, p, end, p + tokLen, p + nameLen);
    filter := Filter(CString(a[..], p), CString(a[..], if nameLen != tokLen then p + nameLen + 1 else p + nameLen));
  }

  lemma ColonFound(b: seq<char>, p: nat, slash: nat, k: nat)
    requires p + k <= slash < |b| && forall i :: p <= i < slash ==> b[i] != NUL
    requires var r := b[slash := NUL];
             (r[p + k] == ':' || r[p + k] == NUL) && forall i :: p <= i < p + k ==> r[i] != ':' && r[i] != NUL
    ensures IndexOf(b[p..slash], ':') == k
  {
    var r := b[slash := NUL];
    assert forall i :: p <= i < p + k ==> b[i] == r[i];
    IndexInSlice(b, p, slash, ':', k);
  }

  /** Whether a filter can be created, which may depend on the filters of the chain created before it. */
  type Acceptance = (seq<Filter>, Filter) -> bool

  /** The calls made after those in `before`: up to the first filter that is refused. */
  function Calls(fs: seq<Filter>, before: seq<Filter>, accept: Acceptance): (calls: seq<Filter>)
    decreases |fs|
  {
    if fs == [] then []
    else if accept(before, fs[0]) then [fs[0]] + Calls(fs[1..], before + [fs[0]], accept)
    else [fs[0]]
  }

  /** Whether all filters can be created, each after the ones before it. */
  predicate AllAccepted(fs: seq<Filter>, before: seq<Filter>, accept: Acceptance)
    decreases |fs|
  {
    fs == [] || (accept(before, fs[0]) && AllAccepted(fs[1..], before + [fs[0]], accept))
  }

  /** The chain after the calls: cut up to and including the piece of the last call. */
  function CutUpTo(s: string, before: seq<Filter>, accept: Acceptance): (r: string)
    decreases |s|
  {
    if s == "" then "" else
    var f, next := Divide(Piece(s)), s[HeadLength(s)..];
    CutHead(s) + (if accept(before, f) then CutUpTo(next, before + [f], accept) else next)
  }

  /** `done` and `calls` are what the loop has made of the chain before `rest`. */
  ghost predicate Progress(s: string, accept: Acceptance, done: string, rest: string, calls: seq<Filter>) {
    && CutUpTo(s, [], accept) == done + CutUpTo(rest, calls, accept)
    && Calls(Parse(s), [], accept) == calls + Calls(Parse(rest), calls, accept)
    && AllAccepted(Parse(s), [], accept) == AllAccepted(Parse(rest), calls, accept)
  }

  lemma ProgressStart(s: string, accept: Acceptance)
    ensures Progress(s, accept, "", s, [])
  {
  }

  lemma ParseHead(s: string)
    requires s != ""
    ensures Parse(s) != [] && Parse(s)[0] == Divide(Piece(s)) && Parse(s)[1..] == Parse(s[HeadLength(s)..])
  {
  }

  lemma Unfold(s: string, before: seq<Filter>, accept: Acceptance)
    requires s != ""
    ensures var f, next := Divide(Piece(s)), s[HeadLength(s)..];
            var ok, after := accept(before, f), before + [f];
            && CutUpTo(s, before, accept) == CutHead(s) + (if ok then CutUpTo(next, after, accept) else next)
            && Calls(Parse(s), before, accept) == [f] + (if ok then Calls(Parse(next), after, accept) else [])
            && AllAccepted(Parse(s), before, accept) == (ok && AllAccepted(Parse(next), after, accept))
  {
    ParseHead(s);
    hide Divide, Piece, CutHead, HeadLength, Parse;
  }

  lemma ProgressNext(s: string, accept: Acceptance, done: string, rest: string, calls: seq<Filter>)
    requires Progress(s, accept, done, rest, calls) && rest != "" && accept(calls, Divide(Piece(rest)))
    ensures Progress(s, accept, done + CutHead(rest), rest[HeadLength(rest)..], calls + [Divide(Piece(rest))])
  {
    hide Divide, Piece, CutHead, HeadLength, Parse, CutUpTo, Calls, AllAccepted;
    var f, next := Divide(Piece(rest)), rest[HeadLength(rest)..];
    Unfold(rest, calls, accept);
    Associative(done, CutHead(rest), CutUpTo(next, calls + [f], accept));
    Associative(calls, [f], Calls(Parse(next), calls + [f], accept));
  }

  lemma ProgressRefused(s: string, accept: Acceptance, done: string, rest: string, calls: seq<Filter>)
    requires Progress(s, accept, done, rest, calls) && rest != "" && !accept(calls, Divide(Piece(rest)))
    ensures CutUpTo(s, [], accept) == done + CutHead(rest) + rest[HeadLength(rest)..]
    ensures Calls(Parse(s), [], accept) == calls + [Divide(Piece(rest))] && !AllAccepted(Parse(s), [], accept)
  {
    hide Divide, Piece, CutHead, HeadLength, Parse, CutUpTo, Calls, AllAccepted;
    Unfold(rest, calls, accept);
    Associative(done, CutHead(rest), rest[HeadLength(rest)..]);
    assert [Divide(Piece(rest))] + [] == [Divide(Piece(rest))];
  }

  lemma ProgressDone(s: string, accept: Acceptance, done: string, calls: seq<Filter>)
    requires Progress(s, accept, done, "", calls)
    ensures CutUpTo(s, [], accept) == done && Calls(Parse(s), [], accept) == calls && AllAccepted(Parse(s), [], accept)
  {
    assert done + "" == done && calls + [] == calls;
  }

  /** The buffer between two rounds: the part already cut, the rest of the chain, and what lies behind it. */
  ghost predicate Buffer(a: seq<char>, done: string, rest: string, tail: seq<char>) {
    a == done + rest + tail && tail != [] && tail[0] == NUL && NUL !in rest
  }

  lemma BufferFacts(a: seq<char>, done: string, rest: string, tail: seq<char>)
    requires Buffer(a, done, rest, tail)
    ensures StringAt(a, |done|, |done| + |rest|) && a[|done|..|done| + |rest|] == rest
    ensures a[|done|] == NUL <==> rest == ""
  {
    assert a[|done|..|done| + |rest|] == rest;
    if rest != "" {
      assert rest[0] in rest;
      assert a[|done|] == rest[0];
    }
  }

  lemma BufferNext(a: seq<char>, b: seq<char>, done: string, rest: string, tail: seq<char>, n: nat, cut: string)
    requires Buffer(a, done, rest, tail) && n <= |rest| && |cut| == n
    requires b == a[..|done|] + cut + a[|done| + n..]
    ensures Buffer(b, done + cut, rest[n..], tail)
    ensures b == done + cut + rest[n..] + tail
  {
    assert a[..|done|] == done;
    assert a[|done| + n..] == rest[n..] + tail;
    Associative(done + cut, rest[n..], tail);
    assert forall c :: c in rest[n..] ==> c in rest;
  }

  lemma BufferEnd(a: seq<char>, done: string, tail: seq<char>)
    requires Buffer(a, done, "", tail)
    ensures a == done + tail
  {
  }

  /** What the whole loop comes to, for a chain `s` with `tail` behind it. */
  ghost predicate Outcome(a: seq<char>, s: string, tail: seq<char>, accept: Acceptance,
                          ok: bool, calls: seq<Filter>)
  {
    && ok == AllAccepted(Parse(s), [], accept)
    && calls == Calls(Parse(s), [], accept)
    && a == CutUpTo(s, [], accept) + tail
  }

  /** The loop invariant: buffer and calls agree on how far the chain has been parsed. */
  ghost predicate State(a: seq<char>, s: string, tail: seq<char>, accept: Acceptance,
                        done: string, rest: string, calls: seq<Filter>) {
    Buffer(a, done, rest, tail) && Progress(s, accept, done, rest, calls)
  }

  lemma StateStart(a: seq<char>, length: nat, accept: Acceptance)
    requires StringAt(a, 0, length)
    ensures State(a, a[..length], a[length..], accept, "", a[..length], [])
  {
    hide Progress;
    BufferStart(a, length);
    ProgressStart(a[..length], accept);
  }

  /** One round takes the state on to the rest of the chain, or to the outcome when the filter is refused. */
  lemma {:induction false} Round(a: seq<char>, b: seq<char>, s: string, tail: seq<char>, accept: Acceptance,
              done: string, rest: string, calls: seq<Filter>)
    returns (done': string, rest': string)
    requires State(a, s, tail, accept, done, rest, calls) && rest != ""
    requires |done| + HeadLength(rest) <= |a| && b == a[..|done|] + CutHead(rest) + a[|done| + HeadLength(rest)..]
    ensures var f := Divide(Piece(rest));
            if accept(calls, f) then
              State(b, s, tail, accept, done', rest', calls + [f])
              && |done'| == |done| + HeadLength(rest) && |rest'| < |rest|
            else
              Outcome(b, s, tail, accept, false, calls + [f])
  {
    hide Divide, Piece, CutHead, CutUpTo, Calls, AllAccepted, Parse, Progress, HeadLength, Buffer;
    done', rest' := done + CutHead(rest), rest[HeadLength(rest)..];
    BufferNext(a, b, done, rest, tail, HeadLength(rest), CutHead(rest));
    if accept(calls, Divide(Piece(rest))) {
      ProgressNext(s, accept, done, rest, calls);
    } else {
      ProgressRefused(s, accept, done, rest, calls);
    }
  }

  lemma StateFacts(a: seq<char>, s: string, tail: seq<char>, accept: Acceptance,
                   done: string, rest: string, calls: seq<Filter>)
    requires State(a, s, tail, accept, done, rest, calls)
    ensures StringAt(a, |done|, |done| + |rest|) && a[|done|..|done| + |rest|] == rest
    ensures |done| < |a| && (a[|done|] == NUL <==> rest == "")
    ensures rest == "" ==> Outcome(a, s, tail, accept, true, calls)
  {
    hide Progress, Parse, CutUpTo, Calls, AllAccepted;
    BufferFacts(a, done, rest, tail);
    if rest == "" {
      BufferEnd(a, done, tail);
      ProgressDone(s, accept, done, calls);
    }
  }

  /** The parsing loop of `init_vid_filters` on a chain of `length` characters, or on no chain at all. */
  method InitFilters(a: array?<char>, ghost length: nat, accept: Acceptance) returns (ok: bool, calls: seq<Filter>)
    requires a != null ==> StringAt(a[..], 0, length)
    modifies a
    ensures a == null ==> ok && calls == []
    ensures a != null ==> Outcome(a[..], old(a[..length]), old(a[length..]), accept, ok, calls)
  {
    hide Outcome, State, Divide, Piece, CutHead, HeadLength;
    calls := [];
    if a == null {
      return true, calls;
    }
    ghost var s, done, rest, tail := a[..length], "", a[..length], a[length..];
    StateStart(a[..], length, accept);
    StateFacts(a[..], s, tail, accept, done, rest, calls);
    var p := 0;
    while a[p] != NUL
      invariant p == |done| && p < a.Length
      invariant State(a[..], s, tail, accept, done, rest, calls)
      decreases |rest|
    {
      ghost var before := a[..];
      StateFacts(before, s, tail, accept, done, rest, calls);
      var filter, next := TakePiece(a, p, p + |rest|);
      done, rest := Round(before, a[..], s, tail, accept, done, rest, calls);
      var accepted := accept(calls, filter);
      calls := calls + [filter];
      if !accepted {
        return false, calls;
      }
      p := next;
      StateFacts(a[..], s, tail, accept, done, rest, calls);
    }
    StateFacts(a[..], s, tail, accept, done, rest, calls);
    ok := true;
  }

  lemma BufferStart(a: seq<char>, length: nat)
    requires StringAt(a, 0, length)
    ensures Buffer(a, "", a[..length], a[length..])
  {
    assert a[0..length] == a[..length];
    assert a == "" + a[..length] + a[length..];
  }

  /** The calls are the first filters of the chain, and each of them but a refused last one is accepted in its turn. */
  lemma {:induction false} CallsUpToRefusal(fs: seq<Filter>, before: seq<Filter>, accept: Acceptance)
    ensures var calls, all := Calls(fs, before, accept), AllAccepted(fs, before, accept);
            && |calls| <= |fs| && calls == fs[..|calls|] && (all ==> |calls| == |fs|)
            && forall i :: 0 <= i < |calls| ==> (accept(before + fs[..i], fs[i]) <==> i + 1 < |calls| || all)
    decreases |fs|
  {
    if fs != [] {
      var calls, f := Calls(fs, before, accept), fs[0];
      assert before + fs[..0] == before;
      if accept(before, f) {
        CallsUpToRefusal(fs[1..], before + [f], accept);
        forall i | 0 < i < |calls|
          ensures before + fs[..i] == before + [f] + fs[1..][..i - 1]
        {
        }
      }
    }
  }

  /** When every filter can be created, all are, in order, and the whole chain is cut. */
  lemma AcceptedCalls(s: string, accept: Acceptance)
    requires AllAccepted(Parse(s), [], accept)
    ensures Calls(Parse(s), [], accept) == Parse(s) && CutUpTo(s, [], accept) == Cut(s)
  {
    AcceptedAfter(s, [], accept);
  }

  lemma {:induction false} AcceptedAfter(s: string, before: seq<Filter>, accept: Acceptance)
    requires AllAccepted(Parse(s), before, accept)
    ensures Calls(Parse(s), before, accept) == Parse(s) && CutUpTo(s, before, accept) == Cut(s)
    decreases |s|
  {
    if s != "" {
      ParseHead(s);
      hide Divide, Piece, CutHead, Parse;
      AcceptedAfter(s[HeadLength(s)..], before + [Divide(Piece(s))], accept);
      assert Parse(s) == [Parse(s)[0]] + Parse(s)[1..];
    }
  }

  /** The stores hit separators only, and no slash is left. */
  lemma {:induction false} CutOnlySeparators(s: string, i: nat)
    requires i < |s|
    ensures Cut(s)[i] == s[i] || (Cut(s)[i] == NUL && s[i] in {'/', ':'})
    ensures s[i] == '/' ==> Cut(s)[i] == NUL
    decreases |s|
  {
    hide CutHead, HeadLength;
    var n := HeadLength(s);
    if i < n {
      CutHeadOnlySeparators(s, i);
    } else {
      CutOnlySeparators(s[n..], i - n);
    }
  }

  lemma CutHeadOnlySeparators(s: string, i: nat)
    requires i < HeadLength(s)
    ensures CutHead(s)[i] == s[i] || (CutHead(s)[i] == NUL && s[i] in {'/', ':'})
    ensures s[i] == '/' ==> CutHead(s)[i] == NUL
  {
    var piece := Piece(s);
    assert i < |piece| ==> piece[i] == s[i];
    assert i == |piece| ==> s[i] == '/';
  }
}
