/** strsep, which cuts a C string into fields by overwriting its delimiters. */
module StringSep {
  import opened Wrappers

  const NUL: char := '\0'

  /** The first position from `p` on that holds a delimiter or the terminator. */
  function Stop(s: seq<char>, p: nat, delim: set<char>): (f: nat)
    requires p <= |s|
    ensures p <= f <= |s|
    ensures forall m :: p <= m < f ==> s[m] != NUL && s[m] !in delim
    ensures f < |s| ==> s[f] == NUL || s[f] in delim
    decreases |s| - p
  {
    if p == |s| || s[p] == NUL || s[p] in delim then p else Stop(s, p + 1, delim)
  }

  /** There is a terminated string at `p`. */
  ghost predicate IsCString(s: seq<char>, p: nat) {
    exists e :: p <= e < |s| && s[e] == NUL
  }

  /** Where the string at `p` ends, and the string itself. */
  function End(s: seq<char>, p: nat): (e: nat)
    requires p <= |s|
    ensures p <= e <= |s|
  {
    Stop(s, p, {})
  }

  function Text(s: seq<char>, p: nat): (t: seq<char>)
    requires p <= |s|
  {
    s[p..End(s, p)]
  }

  /** strsep: hands back the start of the field, ends the field in the buffer, and moves on. */
  method Strsep(buf: array<char>, str: Option<nat>, delim: set<char>) returns (start: Option<nat>, next: Option<nat>)
    requires NUL !in delim && (str.Some? ==> IsCString(buf[..], str.value))
    modifies buf
    ensures start == str
    ensures str == None ==> next == None && buf[..] == old(buf[..])
    ensures str.Some? ==>
              var (s, p) := (old(buf[..]), str.value);
              var f := Stop(s, p, delim);
              && p <= f < buf.Length
              && (if s[f] == NUL then next == None && buf[..] == s
                  else next == Some(f + 1) && buf[..] == s[f := NUL] && IsCString(buf[..], f + 1))
              && Text(buf[..], p) == s[p..f]
  {
    start := str;
    if str == None {
      return start, None;
    }
    ghost var s := buf[..];
    var p := str.value;
    ghost var e :| p <= e < |s| && s[e] == NUL;
    var f := Stop(buf[..], p, delim);
    if buf[f] == NUL {
      StopUnique(s, p, {}, f);
      return start, None;
    }
    buf[f] := NUL;
    StopUnique(buf[..], p, {}, f);
    assert buf[..][e] == NUL;
    return start, Some(f + 1);
  }

  lemma StopUnique(s: seq<char>, p: nat, delim: set<char>, f: nat)
    requires p <= f < |s| && (s[f] == NUL || s[f] in delim)
    requires forall m :: p <= m < f ==> s[m] != NUL && s[m] !in delim
    ensures Stop(s, p, delim) == f
  {
    var g := Stop(s, p, delim);
    assert !(g < f) && !(f < g);
  }

  // ---------- fields ----------

  /** The reference: the fields of a text. */
  function Split(text: seq<char>, delim: set<char>): (fields: seq<seq<char>>)
    ensures fields != []
  {
    if text == [] then [[]]
    else
      var rest := Split(text[1..], delim);
      if text[0] in delim then [[]] + rest else [[text[0]] + rest[0]] + rest[1..]
  }

  /** The delimiters of a text, in order. */
  function Delimiters(text: seq<char>, delim: set<char>): (ds: seq<char>) {
    if text == [] then []
    else (if text[0] in delim then [text[0]] else []) + Delimiters(text[1..], delim)
  }

  /** Fields with the delimiters put back between them. */
  function Join(fields: seq<seq<char>>, ds: seq<char>): (text: seq<char>)
    requires |fields| == |ds| + 1
  {
    if ds == [] then fields[0] else fields[0] + [ds[0]] + Join(fields[1..], ds[1..])
  }

  /** There is one field more than there are delimiters, no field holds a delimiter, and putting the
      delimiters back gives the text. */
  lemma {:induction false} SplitMeaning(text: seq<char>, delim: set<char>)
    ensures |Split(text, delim)| == |Delimiters(text, delim)| + 1
    ensures forall k, c :: 0 <= k < |Split(text, delim)| && c in Split(text, delim)[k] ==> c !in delim
    ensures Join(Split(text, delim), Delimiters(text, delim)) == text
  {
    if text != [] {
      SplitMeaning(text[1..], delim);
      var (rest, ds) := (Split(text[1..], delim), Delimiters(text[1..], delim));
      assert text == [text[0]] + text[1..];
      if text[0] in delim {
        assert ([[]] + rest)[1..] == rest && ([text[0]] + ds)[1..] == ds;
        assert Join([[]] + rest, [text[0]] + ds) == [] + [text[0]] + Join(rest, ds);
      } else {
        assert [] + ds == ds;
        JoinExtend(rest, ds, text[0]);
      }
    }
  }

  lemma JoinExtend(fields: seq<seq<char>>, ds: seq<char>, c: char)
    requires |fields| == |ds| + 1
    ensures Join([[c] + fields[0]] + fields[1..], ds) == [c] + Join(fields, ds)
  {
    var longer := [[c] + fields[0]] + fields[1..];
    assert longer[1..] == fields[1..];
  }

  /** The first field of a text that is cut at its first delimiter. */
  lemma {:induction false} SplitAtFirst(field: seq<char>, d: char, rest: seq<char>, delim: set<char>)
    requires d in delim && forall m :: 0 <= m < |field| ==> field[m] !in delim
    ensures Split(field + [d] + rest, delim) == [field] + Split(rest, delim)
  {
    var text := field + [d] + rest;
    if field == [] {
      assert text[1..] == rest;
    } else {
      assert text[1..] == field[1..] + [d] + rest;
      SplitAtFirst(field[1..], d, rest, delim);
      var more := Split(text[1..], delim);
      assert more[1..] == Split(rest, delim);
      assert [field[0]] + field[1..] == field;
    }
  }

  lemma {:induction false} SplitNoDelimiter(field: seq<char>, delim: set<char>)
    requires forall m :: 0 <= m < |field| ==> field[m] !in delim
    ensures Split(field, delim) == [field]
  {
    if field != [] {
      SplitNoDelimiter(field[1..], delim);
      assert [field[0]] + field[1..] == field;
    }
  }

  /** What one call reads off is the first of the fields still to come. */
  lemma SplitStep(s: seq<char>, p: nat, e: nat, delim: set<char>)
    requires NUL !in delim && p <= e < |s| && s[e] == NUL && e == End(s, p)
    ensures var f := Stop(s, p, delim);
            && f <= e
            && (f == e ==> Split(s[p..e], delim) == [s[p..f]])
            && (f < e ==> s[f] in delim && e == End(s, f + 1)
                          && Split(s[p..e], delim) == [s[p..f]] + Split(s[f + 1..e], delim))
  {
    var f := Stop(s, p, delim);
    if f < e {
      assert s[p..e] == s[p..f] + [s[f]] + s[f + 1..e];
      SplitAtFirst(s[p..f], s[f], s[f + 1..e], delim);
      StopUnique(s, f + 1, {}, e);
    } else {
      assert !(e < f);
      SplitNoDelimiter(s[p..e], delim);
    }
  }

  /** The buffer with the delimiters between `lo` and `hi` overwritten. */
  ghost predicate Cut(s: seq<char>, t: seq<char>, lo: nat, hi: nat, delim: set<char>) {
    |t| == |s| && forall m :: 0 <= m < |s| ==> t[m] == if lo <= m < hi && s[m] in delim then NUL else s[m]
  }

  /** A string that ends before `p` is not changed by changes from `p` on. */
  lemma TextStable(s: seq<char>, t: seq<char>, q: nat, p: nat)
    requires |t| == |s| && q <= p <= |s| && End(s, q) < p
    requires forall m :: 0 <= m < p ==> t[m] == s[m]
    ensures Text(t, q) == Text(s, q) && End(t, q) == End(s, q)
  {
    StopUnique(t, q, {}, End(s, q));
  }

  /** The terminator of a string, and what there is to split before the first call. */
  lemma EndOfString(s: seq<char>, p: nat, delim: set<char>) returns (e: nat)
    requires NUL !in delim && IsCString(s, p)
    ensures p <= e < |s| && s[e] == NUL && e == End(s, p)
    ensures Text(s, p) == s[p..e] && Cut(s, s, p, p, delim)
  {
    e := End(s, p);
    var z :| p <= z < |s| && s[z] == NUL;
  }

  /** The pointers handed back so far show the fields so far, all ended before `limit`. */
  ghost predicate Shown(b: seq<char>, starts: seq<nat>, fields: seq<seq<char>>, limit: nat) {
    && |starts| <= |fields|
    && forall k :: 0 <= k < |starts| ==>
         starts[k] <= |b| && starts[k] <= limit && End(b, starts[k]) < limit && Text(b, starts[k]) == fields[k]
  }

  lemma ShownOneMore(b: seq<char>, b': seq<char>, starts: seq<nat>, fields: seq<seq<char>>, start: nat, limit: nat)
    requires Shown(b, starts, fields, start) && |b'| == |b| && start < limit <= |b|
    requires forall m :: 0 <= m < start ==> b'[m] == b[m]
    requires |starts| < |fields| && Text(b', start) == fields[|starts|] && End(b', start) < limit
    ensures Shown(b', starts + [start], fields, limit)
  {
    forall k | 0 <= k < |starts|
      ensures Text(b', starts[k]) == fields[k] && End(b', starts[k]) < limit
    {
      TextStable(b, b', starts[k], start);
    }
  }

  /** One call of strsep, seen on the values: the field, the cut, and what is still to come. */
  lemma CallMeaning(s: seq<char>, b: seq<char>, p: nat, done: nat, e: nat, delim: set<char>)
    requires NUL !in delim && p <= done <= e < |s| && s[e] == NUL && e == End(s, done)
    requires Cut(s, b, p, done, delim)
    ensures var f := Stop(b, done, delim);
            && f == Stop(s, done, delim) && f <= e && b[done..f] == s[done..f]
            && (b[f] == NUL <==> f == e) && IsCString(b, done)
            && End(b[f := NUL], done) == f && Text(b[f := NUL], done) == s[done..f]
            && Cut(s, b[f := NUL], p, f + 1, delim)
            && (f == e ==> b[f := NUL] == b && Split(s[done..e], delim) == [s[done..f]])
            && (f < e ==> e == End(s, f + 1)
                          && Split(s[done..e], delim) == [s[done..f]] + Split(s[f + 1..e], delim))
  {
    SameStop(s, b, done, delim);
    SplitStep(s, done, e, delim);
    var f := Stop(s, done, delim);
    assert b[e] == NUL;
    StopUnique(b[f := NUL], done, {}, f);
    if f < e {
      assert s[f] in delim;
    }
  }

  lemma CutToTheEnd(s: seq<char>, b: seq<char>, p: nat, e: nat, delim: set<char>)
    requires NUL !in delim && e < |s| && s[e] == NUL && Cut(s, b, p, e + 1, delim)
    ensures Cut(s, b, p, e, delim)
  {
  }

  /** Calling strsep until it hands back NULL. It ends; the field pointers show exactly the fields of
      the text, also when all calls are done; and only delimiters of the text were overwritten. */
  method SplitInPlace(buf: array<char>, p: nat, delim: set<char>) returns (starts: seq<nat>)
    requires NUL !in delim && IsCString(buf[..], p)
    modifies buf
    ensures p <= buf.Length && Cut(old(buf[..]), buf[..], p, End(old(buf[..]), p), delim)
    ensures var fields := Split(Text(old(buf[..]), p), delim);
            && |starts| == |fields|
            && forall k :: 0 <= k < |fields| ==> starts[k] <= buf.Length && Text(buf[..], starts[k]) == fields[k]
  {
    hide Split, Text, End, Cut;
    ghost var s := buf[..];
    ghost var e := EndOfString(s, p, delim);
    ghost var fields := Split(Text(s, p), delim);
    starts := [];
    var str := Some(p);
    ghost var done := p;
    while str.Some?
      invariant p <= done <= e + 1 <= buf.Length
      invariant Shown(buf[..], starts, fields, done) && Cut(s, buf[..], p, done, delim)
      invariant str.Some? ==>
        str.value == done <= e && e == End(s, done) && fields[|starts|..] == Split(s[done..e], delim)
      invariant str == None ==> |starts| == |fields| && done == e + 1
      decreases if str.Some? then buf.Length - done + 1 else 0
    {
      ghost var b := buf[..];
      CallMeaning(s, b, p, done, e, delim);
      ghost var f := Stop(b, done, delim);
      assert fields[|starts|..][0] == s[done..f];
      var start, next := Strsep(buf, str, delim);
      assert buf[..] == b[f := NUL];
      ShownOneMore(b, buf[..], starts, fields, done, f + 1);
      starts := starts + [start.value];
      str := next;
      done := f + 1;
    }
    CutToTheEnd(s, buf[..], p, e, delim);
  }

  lemma SameStop(s: seq<char>, t: seq<char>, p: nat, delim: set<char>)
    requires |t| == |s| && p <= |s| && forall m :: p <= m < |s| ==> t[m] == s[m]
    ensures Stop(t, p, delim) == Stop(s, p, delim)
  {
    var f := Stop(s, p, delim);
    if f < |s| {
      StopUnique(t, p, delim, f);
    } else {
      var g := Stop(t, p, delim);
    }
  }
}
