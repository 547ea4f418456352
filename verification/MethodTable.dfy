/**
 What omr/OMR_MethodDictionary.cpp does to its table and its byte counts, as functions on values. The hash
 table is a map from keys: its hash and equality look at the key alone.
 */
module MethodTable {
  import opened Options

  /** The characters of a C string, without the terminator. */
  type Text = s: string | '\0' !in s witness ""

  /** The property strings of one entry; None is a null pointer. */
  type Values = seq<Option<Text>>

  type Table = map<int, Values>

  // ---------- Name bytes ----------

  /** A property string with its terminator; a null pointer takes no room. */
  function Terminated(v: Option<Text>): string {
    match v
    case None => ""
    case Some(text) => text + ['\0']
  }

  /** The room the first `j` strings take. */
  function BytesUpTo(vals: Values, j: nat): nat
    requires j <= |vals|
  {
    if j == 0 then 0 else BytesUpTo(vals, j - 1) + if vals[j - 1].Some? then |vals[j - 1].value| + 1 else 0
  }

  /** The first `j` strings one after another. */
  function Packed(vals: Values, j: nat): (s: string)
    requires j <= |vals|
    ensures |s| == BytesUpTo(vals, j)
  {
    if j == 0 then ""
    else Packed(vals, j - 1) + Terminated(vals[j - 1])
  }

  /** countEntryNameBytesNeeded. */
  function NameBytes(vals: Values): nat {
    BytesUpTo(vals, |vals|)
  }

  predicate AllNull(vals: Values) {
    forall i :: 0 <= i < |vals| ==> vals[i] == None
  }

  lemma {:induction false} NullNeedsNothing(vals: Values, j: nat)
    requires j <= |vals| && AllNull(vals)
    ensures BytesUpTo(vals, j) == 0
  {
    if j > 0 { NullNeedsNothing(vals, j - 1); }
  }

  lemma {:induction false} PackedGrows(vals: Values, i: nat, j: nat)
    requires i <= j <= |vals|
    ensures BytesUpTo(vals, i) <= BytesUpTo(vals, j)
    ensures Packed(vals, j)[..BytesUpTo(vals, i)] == Packed(vals, i)
  {
    if i < j { PackedGrows(vals, i, j - 1); }
  }

  /** Where in a buffer each packed string starts, `start` being the start of the first. */
  ghost predicate OffsetsFrom(offsets: seq<Option<int>>, vals: Values, start: nat) {
    && |offsets| <= |vals|
    && forall j {:trigger offsets[j]} :: 0 <= j < |offsets| ==> offsets[j] == OffsetOf(vals, start, j)
  }

  ghost function OffsetOf(vals: Values, start: nat, j: nat): Option<int>
    requires j < |vals|
  {
    if vals[j].Some? then Some(start + BytesUpTo(vals, j)) else None
  }

  lemma OffsetsGrow(offsets: seq<Option<int>>, vals: Values, start: nat, n: nat, pos: nat)
    requires OffsetsFrom(offsets, vals, start) && |offsets| == n < |vals| && pos == start + BytesUpTo(vals, n)
    ensures OffsetsFrom(offsets + [if vals[n].Some? then Some(pos) else None], vals, start)
  {
  }

  /** What strlen and friends see at `p`. */
  function CStringAt(buffer: string, p: nat): string
    requires p <= |buffer|
    decreases |buffer| - p
  {
    if p == |buffer| || buffer[p] == '\0' then "" else [buffer[p]] + CStringAt(buffer, p + 1)
  }

  lemma {:induction false} TerminatedTextIsRead(buffer: string, p: nat, s: Text)
    requires p + |s| < |buffer| && buffer[p..p + |s|] == s && buffer[p + |s|] == '\0'
    ensures CStringAt(buffer, p) == s
    decreases |s|
  {
    if s != "" {
      var window := buffer[p..p + |s|];
      assert window[0] == s[0] == buffer[p] && s[0] in s;
      assert buffer[p + 1..p + 1 + |s[1..]|] == window[1..] == s[1..];
      assert forall c :: c in s[1..] ==> c in s;
      TerminatedTextIsRead(buffer, p + 1, s[1..]);
    }
  }

  /** A string packed into a buffer reads back as itself from its offset. */
  lemma PackedTextIsRead(buffer: string, start: nat, vals: Values, j: nat, p: nat)
    requires start + NameBytes(vals) <= |buffer| && buffer[start..start + NameBytes(vals)] == Packed(vals, |vals|)
    requires j < |vals| && vals[j].Some? && p == start + BytesUpTo(vals, j)
    ensures p <= |buffer| && CStringAt(buffer, p) == vals[j].value
  {
    PackedGrows(vals, j, |vals|);
    PackedHas(vals, j);
    TextInWindow(buffer, start, Packed(vals, |vals|), BytesUpTo(vals, j), vals[j].value, p);
  }

  lemma PackedHas(vals: Values, j: nat)
    requires j < |vals| && vals[j].Some?
    ensures var all, s, at := Packed(vals, |vals|), vals[j].value, BytesUpTo(vals, j);
            at + |s| < |all| && all[at..at + |s|] == s && all[at + |s|] == '\0'
  {
    var all, s, at := Packed(vals, |vals|), vals[j].value, BytesUpTo(vals, j);
    PackedGrows(vals, j + 1, |vals|);
    var upTo := Packed(vals, j) + (s + ['\0']);
    assert all[..|upTo|] == upTo;
    assert all[at..at + |s|] == upTo[at..at + |s|] == s;
    assert all[at + |s|] == upTo[at + |s|];
  }

  lemma TextInWindow(buffer: string, start: nat, all: string, at: nat, s: Text, p: nat)
    requires start + |all| <= |buffer| && buffer[start..start + |all|] == all
    requires at + |s| < |all| && all[at..at + |s|] == s && all[at + |s|] == '\0'
    requires p == start + at
    ensures CStringAt(buffer, p) == s
  {
    var window := buffer[start..start + |all|];
    forall k | 0 <= k <= |s| ensures buffer[start + at..][k] == window[at..][k] {
      assert buffer[start + at..][k] == buffer[start + (at + k)] == window[at + k];
    }
    assert buffer[start + at..start + at + |s|] == window[at..at + |s|];
    assert buffer[start + at..][|s|] == window[at..][|s|];
    TerminatedTextIsRead(buffer, start + at, s);
  }

  // ---------- The ledger ----------

  datatype Ledger = Ledger(table: Table, currentBytes: int, maxBytes: int, maxEntries: nat)

  /** insert, when every allocation succeeds. Two entries are pointer-equal only if the key is new or both are all null. */
  function Insert(l: Ledger, key: int, vals: Values, sizeofEntry: nat): Ledger {
    var same := key !in l.table || (AllNull(l.table[key]) && AllNull(vals));
    var table := l.table[key := vals];
    var bytes := l.currentBytes + (if same then sizeofEntry else 0) + NameBytes(vals);
    if bytes > l.maxBytes then Ledger(table, bytes, bytes, |table|)
    else Ledger(table, bytes, l.maxBytes, l.maxEntries)
  }

  /** getEntries between two keys of the method array. */
  datatype Fetch = Fetch(
    table: Table, currentBytes: int, available: nat, retry: bool, firstRetry: nat, remaining: nat)

  datatype Reason = Retrieved | NotAvailable | Retry

  function ReasonFor(f: Fetch, key: int): Reason {
    if key !in f.table then NotAvailable
    else if f.retry then Retry
    else if NameBytes(f.table[key]) <= f.available then Retrieved
    else Retry
  }

  function FetchOne(f: Fetch, key: int, i: nat, sizeofEntry: nat): Fetch {
    match ReasonFor(f, key)
    case NotAvailable => f
    case Retrieved =>
      var needed := NameBytes(f.table[key]);
      f.(table := f.table - {key}, currentBytes := f.currentBytes - needed - sizeofEntry, available := f.available - needed)
    case Retry =>
      f.(retry := true,
         firstRetry := if f.retry then f.firstRetry else i,
         remaining := f.remaining + NameBytes(f.table[key]))
  }

  /** After the first `n` keys. */
  function After(table: Table, currentBytes: int, nameBytes: nat, keys: seq<int>, n: nat, sizeofEntry: nat): (f: Fetch)
    requires n <= |keys|
    ensures f.available <= nameBytes && f.firstRetry <= n
  {
    if n == 0 then Fetch(table, currentBytes, nameBytes, false, 0, 0)
    else FetchOne(After(table, currentBytes, nameBytes, keys, n - 1, sizeofEntry), keys[n - 1], n - 1, sizeofEntry)
  }

  // ---------- Retry completeness ----------

  /** The name bytes owed for the keys from `i` up to `n`, a repeated key counted each time. */
  ghost function Owed(table: Table, keys: seq<int>, i: nat, n: nat): nat
    requires n <= |keys|
    decreases n - i
  {
    if i >= n then 0
    else (if keys[i] in table then NameBytes(table[keys[i]]) else 0) + Owed(table, keys, i + 1, n)
  }

  lemma {:induction false} OwedExtends(table: Table, keys: seq<int>, i: nat, n: nat)
    requires i <= n < |keys|
    ensures Owed(table, keys, i, n + 1) ==
            Owed(table, keys, i, n) + if keys[n] in table then NameBytes(table[keys[n]]) else 0
    decreases n - i
  {
    if i < n { OwedExtends(table, keys, i + 1, n); }
  }

  lemma {:induction false} OwedShrinks(table: Table, gone: int, keys: seq<int>, i: nat, n: nat)
    requires n <= |keys|
    ensures Owed(table - {gone}, keys, i, n) <= Owed(table, keys, i, n)
    decreases n - i
  {
    if i < n { OwedShrinks(table, gone, keys, i + 1, n); }
  }

  lemma {:induction false} OwedOfSuffix(table: Table, keys: seq<int>, f: nat, i: nat)
    requires f <= f + i <= |keys|
    ensures Owed(table, keys, f + i, |keys|) == Owed(table, keys[f..], i, |keys[f..]|)
    decreases |keys| - i
  {
    if f + i < |keys| { OwedOfSuffix(table, keys, f, i + 1); }
  }

  /** What the first call leaves behind: the flip to RETRY freezes the table and counts every later occurrence. */
  lemma {:induction false} RetryCountsWhatIsOwed(table: Table, currentBytes: int, nameBytes: nat, keys: seq<int>, n: nat, sizeofEntry: nat)
    requires n <= |keys|
    ensures var f := After(table, currentBytes, nameBytes, keys, n, sizeofEntry);
            if f.retry then f.firstRetry < n && f.remaining == Owed(f.table, keys, f.firstRetry, n) else f.remaining == 0
  {
    if n > 0 {
      RetryCountsWhatIsOwed(table, currentBytes, nameBytes, keys, n - 1, sizeofEntry);
      var before := After(table, currentBytes, nameBytes, keys, n - 1, sizeofEntry);
      if before.retry {
        OwedExtends(before.table, keys, before.firstRetry, n - 1);
      } else {
        OwedExtends(before.table, keys, n - 1, n - 1);
      }
    }
  }

  /** With all that is owed available, nothing is refused, and the table loses exactly the keys asked for. */
  lemma {:induction false} EnoughIsEnough(table: Table, currentBytes: int, nameBytes: nat, keys: seq<int>, n: nat, sizeofEntry: nat)
    requires n <= |keys| && Owed(table, keys, 0, |keys|) <= nameBytes
    ensures var f := After(table, currentBytes, nameBytes, keys, n, sizeofEntry);
            && !f.retry && Owed(f.table, keys, n, |keys|) <= f.available
            && f.table == table - (set k | k in keys[..n])
  {
    if n == 0 {
      assert table - (set k | k in keys[..0]) == table;
    } else {
      EnoughIsEnough(table, currentBytes, nameBytes, keys, n - 1, sizeofEntry);
      var before := After(table, currentBytes, nameBytes, keys, n - 1, sizeofEntry);
      OwedShrinks(before.table, keys[n - 1], keys, n, |keys|);
      assert keys[..n] == keys[..n - 1] + [keys[n - 1]];
    }
  }

  /**
   If getEntries returns RETRY with (f, n), a call on the rest of the array with n name bytes succeeds: every
   entry left behind is retrieved at its first occurrence there, repeated keys or not.
   */
  lemma SecondCallCompletes(table: Table, currentBytes: int, nameBytes: nat, keys: seq<int>, sizeofEntry: nat, moreBytes: int)
    requires After(table, currentBytes, nameBytes, keys, |keys|, sizeofEntry).retry
    ensures var first := After(table, currentBytes, nameBytes, keys, |keys|, sizeofEntry);
            var rest := keys[first.firstRetry..];
            && !After(first.table, moreBytes, first.remaining, rest, |rest|, sizeofEntry).retry
            && After(first.table, moreBytes, first.remaining, rest, |rest|, sizeofEntry).table
               == first.table - (set k | k in rest)
            && forall i {:trigger rest[i]} :: 0 <= i < |rest| ==>
                 var f := After(first.table, moreBytes, first.remaining, rest, i, sizeofEntry);
                 if rest[i] in first.table && rest[i] !in rest[..i]
                 then ReasonFor(f, rest[i]) == Retrieved && f.table[rest[i]] == first.table[rest[i]]
                 else ReasonFor(f, rest[i]) == NotAvailable
  {
    RetryCountsWhatIsOwed(table, currentBytes, nameBytes, keys, |keys|, sizeofEntry);
    var first := After(table, currentBytes, nameBytes, keys, |keys|, sizeofEntry);
    var rest := keys[first.firstRetry..];
    OwedOfSuffix(first.table, keys, first.firstRetry, 0);
    EnoughIsEnough(first.table, moreBytes, first.remaining, rest, |rest|, sizeofEntry);
    assert rest[..|rest|] == rest;
    forall i | 0 <= i < |rest|
      ensures var f := After(first.table, moreBytes, first.remaining, rest, i, sizeofEntry);
              if rest[i] in first.table && rest[i] !in rest[..i]
              then ReasonFor(f, rest[i]) == Retrieved && f.table[rest[i]] == first.table[rest[i]]
              else ReasonFor(f, rest[i]) == NotAvailable
    {
      EnoughIsEnough(first.table, moreBytes, first.remaining, rest, i, sizeofEntry);
    }
  }

  // ---------- Who is delivered, from the table alone ----------

  /** The name bytes of the different methods among the first `n` keys that the table holds. */
  ghost function Needed(table: Table, keys: seq<int>, n: nat): nat
    requires n <= |keys|
  {
    if n == 0 then 0
    else Needed(table, keys, n - 1) +
         if keys[n - 1] in table && keys[n - 1] !in keys[..n - 1] then NameBytes(table[keys[n - 1]]) else 0
  }

  lemma {:induction false} NeededGrows(table: Table, keys: seq<int>, i: nat, n: nat)
    requires i <= n <= |keys|
    ensures Needed(table, keys, i) <= Needed(table, keys, n)
  {
    if i < n { NeededGrows(table, keys, i, n - 1); }
  }

  /** Key number `i` of the array is met for the first time, and it and all methods before it fit the buffer. */
  ghost predicate Fits(table: Table, nameBytes: nat, keys: seq<int>, i: nat)
    requires i < |keys|
  {
    keys[i] in table && keys[i] !in keys[..i] && Needed(table, keys, i + 1) <= nameBytes
  }

  /** `key` is among the first `n` keys, where it fits. */
  ghost predicate FitsBefore(table: Table, nameBytes: nat, keys: seq<int>, n: nat, key: int)
    requires n <= |keys|
  {
    exists j :: 0 <= j < n && keys[j] == key && Fits(table, nameBytes, keys, j)
  }

  /** getEntries between two keys, from the table alone. */
  ghost predicate GotAsFarAs(f: Fetch, table: Table, nameBytes: nat, keys: seq<int>, n: nat)
    requires n <= |keys|
  {
    && (f.retry <==> Needed(table, keys, n) > nameBytes)
    && (f.retry ==> f.firstRetry < n && Needed(table, keys, f.firstRetry) <= nameBytes < Needed(table, keys, f.firstRetry + 1))
    && (!f.retry ==> f.available == nameBytes - Needed(table, keys, n))
    && (forall k :: k in f.table <==> k in table && !FitsBefore(table, nameBytes, keys, n, k))
    && (forall k :: k in f.table ==> f.table[k] == table[k])
  }

  lemma {:induction false} FirstOf(keys: seq<int>, key: int, n: nat) returns (j: nat)
    requires n <= |keys| && key in keys[..n]
    ensures j < n && keys[j] == key && key !in keys[..j]
  {
    if key in keys[..n - 1] {
      j := FirstOf(keys, key, n - 1);
    } else {
      j := n - 1;
      assert keys[..n] == keys[..n - 1] + [keys[n - 1]];
    }
  }

  /** While everything needed so far fits, a key already met has gone. */
  lemma MetMeansGone(table: Table, nameBytes: nat, keys: seq<int>, n: nat, key: int)
    requires n <= |keys| && key in table && Needed(table, keys, n) <= nameBytes
    ensures key in keys[..n] <==> FitsBefore(table, nameBytes, keys, n, key)
  {
    if key in keys[..n] {
      var j := FirstOf(keys, key, n);
      NeededGrows(table, keys, j + 1, n);
      assert Fits(table, nameBytes, keys, j);
    }
  }

  lemma FitsOneMore(table: Table, nameBytes: nat, keys: seq<int>, n: nat, m: nat, key: int)
    requires n < |keys| && m == n + 1
    ensures FitsBefore(table, nameBytes, keys, m, key) <==>
            FitsBefore(table, nameBytes, keys, n, key) || (keys[n] == key && Fits(table, nameBytes, keys, n))
  {
  }

  lemma FetchGoesOn(f: Fetch, table: Table, nameBytes: nat, keys: seq<int>, n: nat, m: nat, sizeofEntry: nat)
    requires n < |keys| && m == n + 1 && GotAsFarAs(f, table, nameBytes, keys, n)
    ensures GotAsFarAs(FetchOne(f, keys[n], n, sizeofEntry), table, nameBytes, keys, m)
    ensures ReasonFor(f, keys[n]) == Retrieved <==> Fits(table, nameBytes, keys, n)
  {
    var key, f' := keys[n], FetchOne(f, keys[n], n, sizeofEntry);
    NeededGrows(table, keys, n, m);
    if key in table && !f.retry { MetMeansGone(table, nameBytes, keys, n, key); }
    assert key in f'.table <==> key in f.table && !Fits(table, nameBytes, keys, n);
    forall k ensures k in f'.table <==> k in table && !FitsBefore(table, nameBytes, keys, m, k) {
      FitsOneMore(table, nameBytes, keys, n, m, k);
    }
  }

  /**
   RETRY is answered if and only if the different methods asked for need more than the buffer, and firstRetryMethod is
   the first with which they do; a key is in the table until it has been met and fitted.
   */
  lemma {:induction false} RetryIffTooMuchIsNeeded(table: Table, currentBytes: int, nameBytes: nat, keys: seq<int>, n: nat,
                                                   sizeofEntry: nat)
    requires n <= |keys|
    ensures GotAsFarAs(After(table, currentBytes, nameBytes, keys, n, sizeofEntry), table, nameBytes, keys, n)
  {
    if n > 0 {
      var m := n - 1;
      RetryIffTooMuchIsNeeded(table, currentBytes, nameBytes, keys, m, sizeofEntry);
      FetchGoesOn(After(table, currentBytes, nameBytes, keys, m, sizeofEntry), table, nameBytes, keys, m, n, sizeofEntry);
    }
  }

  /** A position is delivered if and only if it is its method's first and all methods up to it fit. */
  lemma DeliveredIffFits(table: Table, currentBytes: int, nameBytes: nat, keys: seq<int>, i: nat, sizeofEntry: nat)
    requires i < |keys|
    ensures var f := After(table, currentBytes, nameBytes, keys, i, sizeofEntry);
            && (ReasonFor(f, keys[i]) == Retrieved <==> Fits(table, nameBytes, keys, i))
            && (ReasonFor(f, keys[i]) == NotAvailable <==> keys[i] !in table || FitsBefore(table, nameBytes, keys, i, keys[i]))
  {
    RetryIffTooMuchIsNeeded(table, currentBytes, nameBytes, keys, i, sizeofEntry);
    FetchGoesOn(After(table, currentBytes, nameBytes, keys, i, sizeofEntry), table, nameBytes, keys, i, i + 1, sizeofEntry);
  }

  // ---------- What leaves the table ----------

  /** Key number `i` of the array is delivered by the call. */
  ghost predicate DeliveredAt(table: Table, currentBytes: int, nameBytes: nat, keys: seq<int>, i: nat, sizeofEntry: nat)
    requires i < |keys|
  {
    ReasonFor(After(table, currentBytes, nameBytes, keys, i, sizeofEntry), keys[i]) == Retrieved
  }

  /** A key leaves the dictionary exactly when it is delivered; every other entry stays as it was. */
  lemma {:induction false} OnlyDeliveredKeysLeave(table: Table, currentBytes: int, nameBytes: nat, keys: seq<int>, n: nat,
                                                  sizeofEntry: nat, k: int)
    requires n <= |keys| && k in table
    ensures var f := After(table, currentBytes, nameBytes, keys, n, sizeofEntry);
            && (k !in f.table <==>
                  exists i :: 0 <= i < n && keys[i] == k && DeliveredAt(table, currentBytes, nameBytes, keys, i, sizeofEntry))
            && (k in f.table ==> f.table[k] == table[k])
  {
    if n > 0 {
      OnlyDeliveredKeysLeave(table, currentBytes, nameBytes, keys, n - 1, sizeofEntry, k);
      assert keys[n - 1] == k && DeliveredAt(table, currentBytes, nameBytes, keys, n - 1, sizeofEntry) <==>
             k in After(table, currentBytes, nameBytes, keys, n - 1, sizeofEntry).table
             && k !in After(table, currentBytes, nameBytes, keys, n, sizeofEntry).table;
    }
  }

  /**
   Once one entry has not fitted, no later one is delivered, even if it would fit: with RETRY the delivered keys are
   those before firstRetryMethod, at their first occurrence.
   */
  lemma {:induction false} NothingFollowsTheFirstRetry(table: Table, currentBytes: int, nameBytes: nat, keys: seq<int>, n: nat,
                                                       sizeofEntry: nat, i: nat)
    requires i < n <= |keys|
    ensures var f := After(table, currentBytes, nameBytes, keys, n, sizeofEntry);
            DeliveredAt(table, currentBytes, nameBytes, keys, i, sizeofEntry) <==>
            && (f.retry ==> i < f.firstRetry)
            && keys[i] in After(table, currentBytes, nameBytes, keys, i, sizeofEntry).table
  {
    RetryCountsWhatIsOwed(table, currentBytes, nameBytes, keys, i, sizeofEntry);
    if i + 1 < n {
      NothingFollowsTheFirstRetry(table, currentBytes, nameBytes, keys, n - 1, sizeofEntry, i);
    }
  }

  /** What is left by a scan that passes over every description that does not fit. */
  datatype Scan = Scan(table: Table, available: nat)

  function PassingOver(table: Table, nameBytes: nat, keys: seq<int>, n: nat): Scan
    requires n <= |keys|
  {
    if n == 0 then Scan(table, nameBytes)
    else
      var g, key := PassingOver(table, nameBytes, keys, n - 1), keys[n - 1];
      if key in g.table && NameBytes(g.table[key]) <= g.available
      then Scan(g.table - {key}, g.available - NameBytes(g.table[key]))
      else g
  }

  /** Nothing left behind from the first misfit on would have fitted into what was left of the buffer. */
  ghost predicate NothingElseFits(f: Fetch, keys: seq<int>, n: nat)
    requires n <= |keys|
  {
    f.retry ==> forall i :: f.firstRetry <= i < n && keys[i] in f.table ==> NameBytes(f.table[keys[i]]) > f.available
  }

  lemma {:induction false} ScansPartAtTheFirstFit(table: Table, currentBytes: int, nameBytes: nat, keys: seq<int>, n: nat,
                                                  sizeofEntry: nat)
    requires n <= |keys|
    ensures var f, g := After(table, currentBytes, nameBytes, keys, n, sizeofEntry), PassingOver(table, nameBytes, keys, n);
            if NothingElseFits(f, keys, n) then g == Scan(f.table, f.available) else g.table.Keys < f.table.Keys
  {
    if n > 0 {
      ScansPartAtTheFirstFit(table, currentBytes, nameBytes, keys, n - 1, sizeofEntry);
    }
  }

  /**
   As many complete descriptions as fit are delivered if and only if, once one has not fitted, none of those still in the
   table fits what is left.
   */
  lemma AsManyAsFit(table: Table, currentBytes: int, nameBytes: nat, keys: seq<int>, n: nat, sizeofEntry: nat)
    requires n <= |keys|
    ensures var f := After(table, currentBytes, nameBytes, keys, n, sizeofEntry);
            f.table == PassingOver(table, nameBytes, keys, n).table <==> NothingElseFits(f, keys, n)
  {
    ScansPartAtTheFirstFit(table, currentBytes, nameBytes, keys, n, sizeofEntry);
  }

  /** Two bytes of room: the first description needs three and stops the delivery, the second needs two and stays behind. */
  lemma AFittingDescriptionStaysBehind(currentBytes: int, sizeofEntry: nat)
    ensures var table: Table := map[1 := [Some("aa")], 2 := [Some("a")]];
            var f := After(table, currentBytes, 2, [1, 2], 2, sizeofEntry);
            f.retry && f.table == table && f.available == 2 && NameBytes(table[2]) == 2
            && PassingOver(table, 2, [1, 2], 2).table == table - {2}
  {
    var table: Table := map[1 := [Some("aa")], 2 := [Some("a")]];
    var keys := [1, 2];
    var f0 := After(table, currentBytes, 2, keys, 0, sizeofEntry);
    assert BytesUpTo(table[1], 1) == 3 && BytesUpTo(table[2], 1) == 2;
    assert ReasonFor(f0, keys[0]) == Retry;
    var f1 := After(table, currentBytes, 2, keys, 1, sizeofEntry);
    assert f1 == FetchOne(f0, keys[0], 0, sizeofEntry);
    assert After(table, currentBytes, 2, keys, 2, sizeofEntry) == FetchOne(f1, keys[1], 1, sizeofEntry);
    assert PassingOver(table, 2, keys, 1) == Scan(table, 2);
  }

  // ---------- The byte ledger ----------

  lemma SomeMember(keys: set<int>)
    requires keys != {}
    ensures exists k :: k in keys
  {
    if forall k :: k !in keys {
      assert false;
    }
  }

  ghost function AnyKey(keys: set<int>): (k: int)
    requires keys != {}
    ensures k in keys
  {
    SomeMember(keys);
    var k :| k in keys;
    k
  }

  /** The bytes the live entries really occupy. */
  ghost function TrueSize(table: Table, sizeofEntry: nat): nat
    decreases |table|
  {
    if table.Keys == {} then 0
    else
      var k := AnyKey(table.Keys);
      sizeofEntry + NameBytes(table[k]) + TrueSize(table - {k}, sizeofEntry)
  }

  lemma {:induction false} TrueSizeWithout(table: Table, k: int, sizeofEntry: nat)
    requires k in table
    ensures TrueSize(table, sizeofEntry) == sizeofEntry + NameBytes(table[k]) + TrueSize(table - {k}, sizeofEntry)
    decreases |table|
  {
    var j := AnyKey(table.Keys);
    if j != k {
      TrueSizeWithout(table - {j}, k, sizeofEntry);
      TrueSizeWithout(table - {k}, j, sizeofEntry);
      assert table - {j} - {k} == table - {k} - {j};
    }
  }

  ghost function Slack(l: Ledger, sizeofEntry: nat): int {
    l.currentBytes - TrueSize(l.table, sizeofEntry)
  }

  /** Only re-inserting a present key raises the slack, by what the old entry had been charged. */
  lemma InsertSlack(l: Ledger, key: int, vals: Values, sizeofEntry: nat)
    ensures Slack(Insert(l, key, vals, sizeofEntry), sizeofEntry) == Slack(l, sizeofEntry) +
            if key !in l.table then 0
            else if AllNull(l.table[key]) && AllNull(vals) then sizeofEntry
            else NameBytes(l.table[key])
    ensures Insert(l, key, vals, sizeofEntry).maxBytes == if l.maxBytes < Insert(l, key, vals, sizeofEntry).currentBytes
                                                          then Insert(l, key, vals, sizeofEntry).currentBytes
                                                          else l.maxBytes
  {
    TrueSizeUpdate(l.table, key, vals, sizeofEntry);
    if key in l.table && AllNull(l.table[key]) { NullNeedsNothing(l.table[key], |l.table[key]|); }
  }

  lemma TrueSizeUpdate(table: Table, key: int, vals: Values, sizeofEntry: nat)
    ensures TrueSize(table[key := vals], sizeofEntry) + (if key in table then NameBytes(table[key]) else 0) ==
            TrueSize(table, sizeofEntry) + NameBytes(vals) + (if key in table then 0 else sizeofEntry)
  {
    TrueSizeWithout(table[key := vals], key, sizeofEntry);
    assert table[key := vals] - {key} == table - {key};
    if key in table {
      TrueSizeWithout(table, key, sizeofEntry);
    } else {
      assert table - {key} == table;
    }
  }

  /** Retrieving entries keeps the slack, so none of the subtractions in getEntries goes below it. */
  lemma {:induction false} FetchKeepsSlack(table: Table, currentBytes: int, nameBytes: nat, keys: seq<int>, n: nat, sizeofEntry: nat)
    requires n <= |keys|
    ensures var f := After(table, currentBytes, nameBytes, keys, n, sizeofEntry);
            && f.currentBytes - TrueSize(f.table, sizeofEntry) == currentBytes - TrueSize(table, sizeofEntry)
            && f.currentBytes <= currentBytes
  {
    if n > 0 {
      FetchKeepsSlack(table, currentBytes, nameBytes, keys, n - 1, sizeofEntry);
      var before := After(table, currentBytes, nameBytes, keys, n - 1, sizeofEntry);
      if ReasonFor(before, keys[n - 1]) == Retrieved { TrueSizeWithout(before.table, keys[n - 1], sizeofEntry); }
    }
  }

  datatype Op = InsertOp(key: int, vals: Values) | GetOp(keys: seq<int>, nameBytes: nat)

  function Apply(l: Ledger, op: Op, sizeofEntry: nat): Ledger {
    match op
    case InsertOp(key, vals) => Insert(l, key, vals, sizeofEntry)
    case GetOp(keys, nameBytes) =>
      var f := After(l.table, l.currentBytes, nameBytes, keys, |keys|, sizeofEntry);
      l.(table := f.table, currentBytes := f.currentBytes)
  }

  const NEW_LEDGER := Ledger(map[], 0, 0, 0)

  /** The ledger after the first `n` operations of a run. */
  function Run(ops: seq<Op>, n: nat, sizeofEntry: nat): Ledger
    requires n <= |ops|
  {
    if n == 0 then NEW_LEDGER else Apply(Run(ops, n - 1, sizeofEntry), ops[n - 1], sizeofEntry)
  }

  /** The largest byte count seen in a run. */
  ghost function Peak(ops: seq<Op>, n: nat, sizeofEntry: nat): int
    requires n <= |ops|
  {
    var now := Run(ops, n, sizeofEntry).currentBytes;
    if n == 0 || now > Peak(ops, n - 1, sizeofEntry) then now else Peak(ops, n - 1, sizeofEntry)
  }

  /** How many entries there were when the byte count last rose above all before. */
  ghost function EntriesAtPeak(ops: seq<Op>, n: nat, sizeofEntry: nat): nat
    requires n <= |ops|
  {
    if n == 0 then 0
    else if Run(ops, n, sizeofEntry).currentBytes > Peak(ops, n - 1, sizeofEntry) then |Run(ops, n, sizeofEntry).table|
    else EntriesAtPeak(ops, n - 1, sizeofEntry)
  }

  /** The bytes that re-insertions of present keys have charged twice. */
  ghost function Overcharge(ops: seq<Op>, n: nat, sizeofEntry: nat): nat
    requires n <= |ops|
  {
    if n == 0 then 0
    else
      var l := Run(ops, n - 1, sizeofEntry);
      Overcharge(ops, n - 1, sizeofEntry) +
      match ops[n - 1]
      case InsertOp(key, vals) =>
        if key !in l.table then 0
        else if AllNull(l.table[key]) && AllNull(vals) then sizeofEntry
        else NameBytes(l.table[key])
      case GetOp(_, _) => 0
  }

  /** The byte ledger of every run. */
  lemma {:induction false} LedgerOfEveryRun(ops: seq<Op>, n: nat, sizeofEntry: nat)
    requires n <= |ops|
    ensures var l := Run(ops, n, sizeofEntry);
            && l.currentBytes == TrueSize(l.table, sizeofEntry) + Overcharge(ops, n, sizeofEntry)
            && l.maxBytes == Peak(ops, n, sizeofEntry)
  {
    if n > 0 {
      LedgerOfEveryRun(ops, n - 1, sizeofEntry);
      var before := Run(ops, n - 1, sizeofEntry);
      match ops[n - 1] {
        case InsertOp(key, vals) => InsertSlack(before, key, vals, sizeofEntry);
        case GetOp(keys, nameBytes) =>
          FetchKeepsSlack(before.table, before.currentBytes, nameBytes, keys, |keys|, sizeofEntry);
          PeakIsReached(ops, n - 1, sizeofEntry);
      }
    }
  }

  lemma PeakIsReached(ops: seq<Op>, n: nat, sizeofEntry: nat)
    requires n <= |ops|
    ensures Run(ops, n, sizeofEntry).currentBytes <= Peak(ops, n, sizeofEntry)
  {
  }

  lemma StepKeepsEntries(l: Ledger, op: Op, sizeofEntry: nat)
    requires l.currentBytes <= l.maxBytes
    ensures var l' := Apply(l, op, sizeofEntry);
            l'.maxEntries == if l'.currentBytes > l.maxBytes then |l'.table| else l.maxEntries
  {
    if op.GetOp? { FetchKeepsSlack(l.table, l.currentBytes, op.nameBytes, op.keys, |op.keys|, sizeofEntry); }
  }

  /** `_maxEntries` is the size of the table when the largest byte count was reached. */
  lemma {:induction false} EntriesOfEveryRun(ops: seq<Op>, n: nat, sizeofEntry: nat)
    requires n <= |ops|
    ensures Run(ops, n, sizeofEntry).maxEntries == EntriesAtPeak(ops, n, sizeofEntry)
  {
    if n > 0 {
      var m := n - 1;
      EntriesOfEveryRun(ops, m, sizeofEntry);
      LedgerOfEveryRun(ops, m, sizeofEntry);
      PeakIsReached(ops, m, sizeofEntry);
      StepKeepsEntries(Run(ops, m, sizeofEntry), ops[m], sizeofEntry);
    }
  }
}
