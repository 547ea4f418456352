/** OMR_MethodDictionary (omr/OMR_MethodDictionary.cpp), proved against the functions of MethodTable. */
module MethodDictionary {
  import opened Options
  import opened MethodTable

  datatype Error = NoError | RetryNeeded | Unavailable | OutOfNativeMemory | InternalError | FailedToAttach

  /** A C string on the heap; entries are compared by the identity of their strings. */
  class CString {
    const chars: Text

    constructor (chars: Text)
      ensures this.chars == chars
    {
      this.chars := chars;
    }
  }

  function Contents(strings: seq<CString?>): (vals: Values)
    ensures |vals| == |strings|
    ensures forall i :: 0 <= i < |vals| ==> vals[i] == if strings[i] == null then None else Some(strings[i].chars)
  {
    seq(|strings|, i requires 0 <= i < |strings| => if strings[i] == null then None else Some(strings[i].chars))
  }

  /** A string pointer of a description is an offset into the name buffer, None when null. */
  datatype Description = Description(reasonCode: Error, propertyValues: seq<Option<int>>)

  function ReasonCode(r: Reason): Error {
    match r
    case Retrieved => NoError
    case NotAvailable => Unavailable
    case Retry => RetryNeeded
  }

  /** The description of `key`, looked up when the call had got as far as `f`. */
  ghost predicate Described(d: Description, before: Description, buffer: string, f: Fetch, key: int, nameBytes: nat) {
    && d.reasonCode == ReasonCode(ReasonFor(f, key))
    && if ReasonFor(f, key) == Retrieved
       then
         var vals, start := f.table[key], nameBytes - f.available;
         && 0 <= start && start + NameBytes(vals) <= |buffer|
         && buffer[start..start + NameBytes(vals)] == Packed(vals, |vals|)
         && |d.propertyValues| == |vals| && OffsetsFrom(d.propertyValues, vals, start)
       else d.propertyValues == before.propertyValues
  }

  /** Every pointer of a retrieved description decodes to the string inserted under that key and property. */
  lemma DescriptionsDecode(d: Description, before: Description, buffer: string, f: Fetch, key: int, nameBytes: nat, j: nat)
    requires Described(d, before, buffer, f, key, nameBytes) && ReasonFor(f, key) == Retrieved
    requires j < |f.table[key]|
    ensures |d.propertyValues| == |f.table[key]|
    ensures match d.propertyValues[j]
            case None => f.table[key][j] == None
            case Some(p) => 0 <= p <= |buffer| && f.table[key][j].Some? && f.table[key][j].value == CStringAt(buffer, p)
  {
    OffsetsDecode(d.propertyValues, f.table[key], buffer, nameBytes - f.available, j);
  }

  lemma OffsetsDecode(offsets: seq<Option<int>>, vals: Values, buffer: string, start: nat, j: nat)
    requires start + NameBytes(vals) <= |buffer| && buffer[start..start + NameBytes(vals)] == Packed(vals, |vals|)
    requires OffsetsFrom(offsets, vals, start) && j < |offsets|
    ensures match offsets[j]
            case None => vals[j] == None
            case Some(p) => 0 <= p <= |buffer| && vals[j].Some? && vals[j].value == CStringAt(buffer, p)
  {
    if vals[j].Some? {
      assert offsets[j] == OffsetOf(vals, start, j);
      PackedTextIsRead(buffer, start, vals, j, offsets[j].value);
    }
  }

  /** One turn of the loop uses up exactly the room of the key it delivers. */
  lemma RegionsAreContiguous(table: Table, bytes: int, nameBytes: nat, keys: seq<int>, i: nat, sizeofEntry: nat)
    requires i < |keys|
    ensures var f := After(table, bytes, nameBytes, keys, i, sizeofEntry);
            After(table, bytes, nameBytes, keys, i + 1, sizeofEntry).available ==
            f.available - if ReasonFor(f, keys[i]) == Retrieved then NameBytes(f.table[keys[i]]) else 0
  {
  }

  /** The first `n` descriptions are what their keys deserve, the others untouched. */
  ghost predicate AllDescribed(ds: seq<Description>, before: seq<Description>, buffer: string, books: Ledger,
                               keys: seq<int>, n: nat, nameBytes: nat, sizeofEntry: nat) {
    && n <= |keys| <= |ds| == |before|
    && (forall i {:trigger ds[i]} :: 0 <= i < n ==>
          Described(ds[i], before[i], buffer, After(books.table, books.currentBytes, nameBytes, keys, i, sizeofEntry), keys[i], nameBytes))
    && (forall i {:trigger ds[i]} :: n <= i < |ds| ==> ds[i] == before[i])
  }

  lemma {:induction false} AvailableShrinks(books: Ledger, nameBytes: nat, keys: seq<int>, i: nat, n: nat, sizeofEntry: nat)
    requires i <= n <= |keys|
    ensures After(books.table, books.currentBytes, nameBytes, keys, n, sizeofEntry).available <=
            After(books.table, books.currentBytes, nameBytes, keys, i, sizeofEntry).available
  {
    if i < n {
      AvailableShrinks(books, nameBytes, keys, i, n - 1, sizeofEntry);
      RegionsAreContiguous(books.table, books.currentBytes, nameBytes, keys, n - 1, sizeofEntry);
    }
  }

  /** A region already filled ends before the name bytes still available. */
  lemma RegionEndsBefore(books: Ledger, nameBytes: nat, keys: seq<int>, i: nat, n: nat, sizeofEntry: nat)
    requires i < n <= |keys|
    ensures var f := After(books.table, books.currentBytes, nameBytes, keys, i, sizeofEntry);
            ReasonFor(f, keys[i]) == Retrieved ==>
              After(books.table, books.currentBytes, nameBytes, keys, n, sizeofEntry).available
              <= f.available - NameBytes(f.table[keys[i]])
  {
    var next := i + 1;
    AvailableShrinks(books, nameBytes, keys, next, n, sizeofEntry);
    RegionsAreContiguous(books.table, books.currentBytes, nameBytes, keys, i, sizeofEntry);
    var f := After(books.table, books.currentBytes, nameBytes, keys, i, sizeofEntry);
    if ReasonFor(f, keys[i]) == Retrieved {
      assert After(books.table, books.currentBytes, nameBytes, keys, next, sizeofEntry).available
             == f.available - NameBytes(f.table[keys[i]]);
    }
  }

  /** Where the strings of key number `i` go, if it is delivered. */
  ghost function RegionStart(books: Ledger, nameBytes: nat, keys: seq<int>, i: nat, sizeofEntry: nat): nat
    requires i <= |keys|
  {
    nameBytes - After(books.table, books.currentBytes, nameBytes, keys, i, sizeofEntry).available
  }

  ghost predicate DeliveredAmong(books: Ledger, nameBytes: nat, keys: seq<int>, i: nat, sizeofEntry: nat)
    requires i < |keys|
  {
    DeliveredAt(books.table, books.currentBytes, nameBytes, keys, i, sizeofEntry)
  }

  lemma {:induction false} NothingDeliveredMovesNothing(books: Ledger, nameBytes: nat, keys: seq<int>, i: nat, j: nat,
                                                        sizeofEntry: nat)
    requires i <= j <= |keys| && forall k :: i <= k < j ==> !DeliveredAmong(books, nameBytes, keys, k, sizeofEntry)
    ensures RegionStart(books, nameBytes, keys, j, sizeofEntry) == RegionStart(books, nameBytes, keys, i, sizeofEntry)
  {
    if i < j {
      NothingDeliveredMovesNothing(books, nameBytes, keys, i, j - 1, sizeofEntry);
      assert !DeliveredAmong(books, nameBytes, keys, j - 1, sizeofEntry);
      RegionsAreContiguous(books.table, books.currentBytes, nameBytes, keys, j - 1, sizeofEntry);
    }
  }

  /**
   The regions of two delivered keys lie apart and inside the name buffer, in array order; the second starts where the
   first ends if nothing was delivered in between.
   */
  lemma RegionsAreApart(books: Ledger, nameBytes: nat, keys: seq<int>, i: nat, j: nat, sizeofEntry: nat)
    requires i < j < |keys|
    requires DeliveredAmong(books, nameBytes, keys, i, sizeofEntry) && DeliveredAmong(books, nameBytes, keys, j, sizeofEntry)
    ensures var f := After(books.table, books.currentBytes, nameBytes, keys, i, sizeofEntry);
            var g := After(books.table, books.currentBytes, nameBytes, keys, j, sizeofEntry);
            var end := RegionStart(books, nameBytes, keys, i, sizeofEntry) + NameBytes(f.table[keys[i]]);
            var start := RegionStart(books, nameBytes, keys, j, sizeofEntry);
            && end <= start && start + NameBytes(g.table[keys[j]]) <= nameBytes
            && ((forall k :: i < k < j ==> !DeliveredAmong(books, nameBytes, keys, k, sizeofEntry)) ==> end == start)
  {
    RegionEndsBefore(books, nameBytes, keys, i, j, sizeofEntry);
    RegionsAreContiguous(books.table, books.currentBytes, nameBytes, keys, i, sizeofEntry);
    if forall k :: i < k < j ==> !DeliveredAmong(books, nameBytes, keys, k, sizeofEntry) {
      var next := i + 1;
      NothingDeliveredMovesNothing(books, nameBytes, keys, next, j, sizeofEntry);
      assert After(books.table, books.currentBytes, nameBytes, keys, i + 1, sizeofEntry)
          == After(books.table, books.currentBytes, nameBytes, keys, next, sizeofEntry);
    }
  }

  /** Later writes to the name buffer do not touch what earlier descriptions point at. */
  lemma AllDescribedStays(ds: seq<Description>, before: seq<Description>, buffer: string, buffer': string, books: Ledger,
                          keys: seq<int>, n: nat, nameBytes: nat, sizeofEntry: nat)
    requires AllDescribed(ds, before, buffer, books, keys, n, nameBytes, sizeofEntry)
    requires nameBytes <= |buffer| == |buffer'|
    requires var kept := nameBytes - After(books.table, books.currentBytes, nameBytes, keys, n, sizeofEntry).available;
             buffer'[..kept] == buffer[..kept]
    ensures AllDescribed(ds, before, buffer', books, keys, n, nameBytes, sizeofEntry)
  {
    forall i | 0 <= i < n
      ensures Described(ds[i], before[i], buffer', After(books.table, books.currentBytes, nameBytes, keys, i, sizeofEntry), keys[i], nameBytes)
    {
      RegionEndsBefore(books, nameBytes, keys, i, n, sizeofEntry);
      DescribedStays(ds[i], before[i], buffer, buffer',
                     After(books.table, books.currentBytes, nameBytes, keys, i, sizeofEntry), keys[i], nameBytes,
                     nameBytes - After(books.table, books.currentBytes, nameBytes, keys, n, sizeofEntry).available);
    }
  }

  /** The reason code of key number `i`, from the table the call found: delivered, absent or already delivered, or left behind. */
  ghost predicate CodeByTable(code: Error, table: Table, nameBytes: nat, keys: seq<int>, i: nat)
    requires i < |keys|
  {
    var gone := keys[i] !in table || FitsBefore(table, nameBytes, keys, i, keys[i]);
    && (code == NoError <==> Fits(table, nameBytes, keys, i))
    && (code == Unavailable <==> gone)
    && (code == RetryNeeded <==> !gone && !Fits(table, nameBytes, keys, i))
  }

  lemma CodesByTable(ds: seq<Description>, before: seq<Description>, buffer: string, books: Ledger, keys: seq<int>,
                     nameBytes: nat, sizeofEntry: nat)
    requires AllDescribed(ds, before, buffer, books, keys, |keys|, nameBytes, sizeofEntry)
    ensures forall i {:trigger ds[i]} :: 0 <= i < |keys| ==> CodeByTable(ds[i].reasonCode, books.table, nameBytes, keys, i)
  {
    forall i | 0 <= i < |keys| ensures CodeByTable(ds[i].reasonCode, books.table, nameBytes, keys, i) {
      DeliveredIffFits(books.table, books.currentBytes, nameBytes, keys, i, sizeofEntry);
      assert Described(ds[i], before[i], buffer, After(books.table, books.currentBytes, nameBytes, keys, i, sizeofEntry),
                       keys[i], nameBytes);
    }
  }

  /** One more key has been described, and the name buffer written where nothing was yet. */
  lemma AllDescribedAdvances(ds: seq<Description>, soFar: seq<Description>, before: seq<Description>,
                             buffer: string, buffer': string, books: Ledger, keys: seq<int>, n: nat, nameBytes: nat,
                             sizeofEntry: nat)
    requires AllDescribed(soFar, before, buffer, books, keys, n, nameBytes, sizeofEntry) && n < |keys|
    requires |ds| == |soFar| && ds == soFar[n := ds[n]] && nameBytes <= |buffer| == |buffer'|
    requires var f := After(books.table, books.currentBytes, nameBytes, keys, n, sizeofEntry);
             && buffer'[..nameBytes - f.available] == buffer[..nameBytes - f.available]
             && Described(ds[n], soFar[n], buffer', f, keys[n], nameBytes)
    ensures AllDescribed(ds, before, buffer', books, keys, n + 1, nameBytes, sizeofEntry)
  {
    AllDescribedStays(soFar, before, buffer, buffer', books, keys, n, nameBytes, sizeofEntry);
    assert soFar[n] == before[n];
  }

  lemma SliceOfPrefix(s: string, kept: nat, start: nat, end: nat)
    requires start <= end <= kept <= |s|
    ensures s[start..end] == s[..kept][start..end]
  {
  }

  lemma DescribedStays(d: Description, before: Description, buffer: string, buffer': string, f: Fetch, key: int,
                       nameBytes: nat, kept: nat)
    requires Described(d, before, buffer, f, key, nameBytes) && kept <= |buffer| == |buffer'|
    requires buffer'[..kept] == buffer[..kept]
    requires ReasonFor(f, key) == Retrieved ==> nameBytes - f.available + NameBytes(f.table[key]) <= kept
    ensures Described(d, before, buffer', f, key, nameBytes)
  {
    if ReasonFor(f, key) == Retrieved {
      var start, end := nameBytes - f.available, nameBytes - f.available + NameBytes(f.table[key]);
      SliceOfPrefix(buffer, kept, start, end);
      SliceOfPrefix(buffer', kept, start, end);
    }
  }

  class Dictionary {
    const numProperties: nat
    const sizeofEntry: nat
    var table: map<int, seq<CString?>>
    var currentBytes: nat
    var maxBytes: nat
    var maxEntries: nat

    constructor (numProperties: nat, sizeofEntry: nat)
      ensures this.numProperties == numProperties && this.sizeofEntry == sizeofEntry
      ensures Valid() && Books() == NEW_LEDGER
    {
      this.numProperties, this.sizeofEntry := numProperties, sizeofEntry;
      table, currentBytes, maxBytes, maxEntries := map[], 0, 0, 0;
    }

    ghost function View(): Table
      reads this
    {
      map k | k in table :: Contents(table[k])
    }

    ghost function Books(): Ledger
      reads this
    {
      Ledger(View(), currentBytes, maxBytes, maxEntries)
    }

    ghost predicate Valid()
      reads this
    {
      && (forall k :: k in table ==> |table[k]| == numProperties)
      && 0 <= Slack(Books(), sizeofEntry)
    }

    // ---------- insert ----------

    method EntryValueEquals(e1: seq<CString?>, e2: seq<CString?>) returns (rc: bool)
      requires |e1| == |e2| == numProperties
      ensures rc == (e1 == e2)
    {
      rc := true;
      var i := 0;
      while i < numProperties && rc
        invariant 0 <= i <= numProperties
        invariant rc ==> forall k :: 0 <= k < i ==> e1[k] == e2[k]
        invariant !rc ==> e1 != e2
        decreases numProperties - i, rc
      {
        if e1[i] != e2[i] {
          rc := false;
        } else {
          i := i + 1;
        }
      }
    }

    /** Frees the strings of the entry under `key` and clears its slots. */
    method CleanupEntryStrings(key: int)
      requires key in table && |table[key]| == numProperties
      modifies `table
      ensures table.Keys == old(table).Keys && |table[key]| == numProperties
      ensures forall i :: 0 <= i < numProperties ==> table[key][i] == null
      ensures forall k :: k in table && k != key ==> table[k] == old(table)[k]
    {
      for i := 0 to numProperties
        invariant table.Keys == old(table).Keys && |table[key]| == numProperties
        invariant forall k :: 0 <= k < i ==> table[key][k] == null
        invariant forall k :: k in table && k != key ==> table[k] == old(table)[k]
      {
        table := table[key := table[key][i := null]];
      }
    }

    /** Copies the strings of `src` into the slots of the entry under `key`; null slots are not written. */
    method DupEntryStrings(key: int, src: seq<CString?>)
      requires key in table && |table[key]| == |src| == numProperties
      modifies `table
      ensures table.Keys == old(table).Keys && |table[key]| == numProperties
      ensures forall i :: 0 <= i < numProperties ==>
                if src[i] == null then table[key][i] == old(table)[key][i]
                else table[key][i] != null && fresh(table[key][i]) && table[key][i].chars == src[i].chars
      ensures forall k :: k in table && k != key ==> table[k] == old(table)[k]
    {
      for i := 0 to numProperties
        invariant table.Keys == old(table).Keys && |table[key]| == numProperties
        invariant forall k :: i <= k < numProperties ==> table[key][k] == old(table)[key][k]
        invariant forall k :: 0 <= k < i ==>
                    if src[k] == null then table[key][k] == old(table)[key][k]
                    else table[key][k] != null && fresh(table[key][k]) && table[key][k].chars == src[k].chars
        invariant forall k :: k in table && k != key ==> table[k] == old(table)[k]
      {
        if src[i] != null {
          var copy := new CString(src[i].chars);
          table := table[key := table[key][i := copy]];
        }
      }
    }

    /** countEntryNameBytesNeeded. */
    method CountEntryNameBytesNeeded(entry: seq<CString?>) returns (nameBytesNeeded: nat)
      ensures nameBytesNeeded == NameBytes(Contents(entry))
    {
      nameBytesNeeded := 0;
      for i := 0 to |entry|
        invariant nameBytesNeeded == BytesUpTo(Contents(entry), i)
      {
        if entry[i] != null {
          nameBytesNeeded := nameBytesNeeded + |entry[i].chars| + 1;
        }
      }
    }

    /**
     insert, with string allocations succeeding. A caller does not pass in the very strings the dictionary holds
     under the same key: they are freed before they are copied.
     */
    method Insert(attaches: bool, enters: bool, allocatesNode: bool, key: int, entry: seq<CString?>) returns (rc: Error)
      requires Valid() && |entry| == numProperties
      requires key in table ==> forall i, j {:trigger entry[i], table[key][j]} ::
                 0 <= i < numProperties && 0 <= j < numProperties && entry[i] != null ==> entry[i] != table[key][j]
      modifies this
      ensures Valid()
      ensures rc == if !attaches then FailedToAttach else if !enters then InternalError
                    else if !allocatesNode then OutOfNativeMemory else NoError
      ensures rc != NoError ==> Books() == old(Books())
      ensures rc == NoError ==> Books() == MethodTable.Insert(old(Books()), key, Contents(entry), sizeofEntry)
    {
      rc := NoError;
      if !attaches { rc := FailedToAttach; return; }
      if !enters { rc := InternalError; return; }
      if !allocatesNode { rc := OutOfNativeMemory; return; }

      ghost var books := Books();
      var reusedEntry := StoreEntry(key, entry);
      Charge(key, reusedEntry, books, Contents(entry));
      InsertSlack(books, key, Contents(entry), sizeofEntry);
    }

    /** The byte counts after an entry has been stored. */
    method Charge(key: int, reusedEntry: bool, ghost books: Ledger, ghost vals: Values)
      requires key in table && Contents(table[key]) == vals && View() == books.table[key := vals]
      requires books.currentBytes == currentBytes && books.maxBytes == maxBytes && books.maxEntries == maxEntries
      requires reusedEntry == (key in books.table && !(AllNull(books.table[key]) && AllNull(vals)))
      modifies this`currentBytes, this`maxBytes, this`maxEntries
      ensures Books() == MethodTable.Insert(books, key, vals, sizeofEntry)
    {
      if !reusedEntry {
        currentBytes := currentBytes + sizeofEntry;
      }
      var needed := CountEntryNameBytesNeeded(table[key]);
      currentBytes := currentBytes + needed;
      if currentBytes > maxBytes {
        maxBytes := currentBytes;
        maxEntries := |table|;
      }
      ViewHasAsManyEntries();
    }

    lemma ViewHasAsManyEntries()
      ensures |View()| == |table|
    {
      assert View().Keys == table.Keys;
      assert |View()| == |View().Keys| == |table.Keys| == |table|;
    }

    /** Adds or finds the entry under `key` and gives it its own copies of the strings of `entry`. */
    method StoreEntry(key: int, entry: seq<CString?>) returns (reusedEntry: bool)
      requires (forall k :: k in table ==> |table[k]| == numProperties) && |entry| == numProperties
      requires key in table ==> forall i, j {:trigger entry[i], table[key][j]} ::
                 0 <= i < numProperties && 0 <= j < numProperties && entry[i] != null ==> entry[i] != table[key][j]
      modifies `table
      ensures forall k :: k in table ==> |table[k]| == numProperties
      ensures View() == old(View())[key := Contents(entry)]
      ensures key in table && Contents(table[key]) == Contents(entry)
      ensures reusedEntry == (key in old(View()) && !(AllNull(old(View())[key]) && AllNull(Contents(entry))))
    {
      if key !in table {
        table := table[key := entry];
      }
      reusedEntry := false;
      var same := EntryValueEquals(table[key], entry);
      SameMeansNewOrNull(old(table), key, entry);
      if !same {
        CleanupEntryStrings(key);
        reusedEntry := true;
      }
      assert forall i :: 0 <= i < numProperties && entry[i] == null ==> table[key][i] == null;
      DupEntryStrings(key, entry);
      assert Contents(table[key]) == Contents(entry);
      assert table.Keys == old(table).Keys + {key};
      assert forall k :: k in table && k != key ==> table[k] == old(table)[k];
    }

    lemma SameMeansNewOrNull(before: map<int, seq<CString?>>, key: int, entry: seq<CString?>)
      requires |entry| == numProperties && (key in before ==> |before[key]| == numProperties)
      requires key in before ==> forall i, j {:trigger entry[i], before[key][j]} ::
                 0 <= i < numProperties && 0 <= j < numProperties && entry[i] != null ==> entry[i] != before[key][j]
      ensures key in before ==> (before[key] == entry <==> AllNull(Contents(before[key])) && AllNull(Contents(entry)))
    {
      if key in before && before[key] == entry {
        forall i | 0 <= i < numProperties ensures entry[i] == null {
          assert entry[i] == before[key][i];
        }
      }
    }

    // ---------- getEntries ----------

    /** copyEntryNameBytes. */
    method CopyEntryNameBytes(entry: seq<CString?>, nameBuffer: array<char>, start: nat) returns (offsets: seq<Option<int>>)
      requires start + NameBytes(Contents(entry)) <= nameBuffer.Length
      modifies nameBuffer
      ensures |offsets| == |entry| && OffsetsFrom(offsets, Contents(entry), start)
      ensures nameBuffer[..] == Overwrite(old(nameBuffer[..]), start, Packed(Contents(entry), |entry|))
    {
      ghost var vals := Contents(entry);
      var nameBufferPos := start;
      offsets := [];
      for i := 0 to |entry|
        invariant |offsets| == i && nameBufferPos == start + BytesUpTo(vals, i) <= nameBuffer.Length
        invariant OffsetsFrom(offsets, vals, start)
        invariant nameBuffer[..] == Overwrite(old(nameBuffer[..]), start, Packed(vals, i))
      {
        PackedGrows(vals, i + 1, |vals|);
        OffsetsGrow(offsets, vals, start, i, nameBufferPos);
        var offset;
        offset, nameBufferPos := CopyName(entry[i], nameBuffer, nameBufferPos, old(nameBuffer[..]), start, Packed(vals, i));
        offsets := offsets + [offset];
      }
    }

    /** One property string, copied to `pos` behind what is already `packed`. */
    method CopyName(name: CString?, nameBuffer: array<char>, pos: nat, ghost b: string, ghost start: nat, ghost packed: string)
      returns (offset: Option<int>, next: nat)
      requires start + |packed| == pos && |b| == nameBuffer.Length
      requires pos + (if name == null then 0 else |name.chars| + 1) <= nameBuffer.Length
      requires nameBuffer[..] == Overwrite(b, start, packed)
      modifies nameBuffer
      ensures next == pos + if name == null then 0 else |name.chars| + 1
      ensures offset == if name == null then None else Some(pos)
      ensures nameBuffer[..] == Overwrite(b, start, packed + Terminated(if name == null then None else Some(name.chars)))
    {
      if name == null {
        assert packed + "" == packed;
        return None, pos;
      }
      var text := name.chars + ['\0'];
      OverwriteAppends(b, start, packed, text);
      CopyBytes(nameBuffer, pos, text);
      return Some(pos), pos + |text|;
    }

    /** One turn of the loop of getEntries: key number `i` of the method array, the walk having come as far as `f`. */
    method FetchKey(key: int, i: nat, descriptions: array<Description>, nameBuffer: array<char>, nameBytes: nat,
                    retrying: bool, available: nat, remaining: nat, firstRetry: nat, ghost f: Fetch)
      returns (retrying': bool, available': nat, remaining': nat, firstRetry': nat)
      requires Valid() && i < descriptions.Length && available <= nameBytes <= nameBuffer.Length
      requires f == Fetch(View(), currentBytes, available, retrying, firstRetry, remaining)
      modifies this`table, this`currentBytes, descriptions, nameBuffer
      ensures Valid()
      ensures FetchOne(f, key, i, sizeofEntry) ==
              Fetch(View(), currentBytes, available', retrying', firstRetry', remaining')
      ensures Described(descriptions[i], old(descriptions[i]), nameBuffer[..], f, key, nameBytes)
      ensures descriptions[..] == old(descriptions[..])[i := descriptions[i]]
      ensures nameBuffer[..nameBytes - available] == old(nameBuffer[..nameBytes - available])
      ensures nameBuffer[nameBytes - available'..] == old(nameBuffer[nameBytes - available'..])
    {
      retrying', available', remaining', firstRetry' := retrying, available, remaining, firstRetry;
      if key !in table {
        descriptions[i] := descriptions[i].(reasonCode := Unavailable);
        return;
      }
      var entry := table[key];
      var nameBytesNeeded := CountEntryNameBytesNeeded(entry);
      ghost var reason := ReasonFor(f, key);
      if retrying {
        assert reason == Retry;
        descriptions[i] := descriptions[i].(reasonCode := RetryNeeded);
        remaining' := remaining + nameBytesNeeded;
      } else if nameBytesNeeded <= available {
        assert reason == Retrieved;
        Deliver(key, entry, nameBytesNeeded, i, descriptions, nameBuffer, nameBytes - available);
        available' := available - nameBytesNeeded;
      } else {
        retrying' := true;
        firstRetry' := i;
        descriptions[i] := descriptions[i].(reasonCode := RetryNeeded);
        remaining' := remaining + nameBytesNeeded;
      }
    }

    /** A description that fits: it is written out, and its entry leaves the table. */
    method Deliver(key: int, entry: seq<CString?>, nameBytesNeeded: nat, i: nat, descriptions: array<Description>,
                   nameBuffer: array<char>, start: nat)
      requires Valid() && key in table && entry == table[key] && nameBytesNeeded == NameBytes(Contents(entry))
      requires i < descriptions.Length && start + nameBytesNeeded <= nameBuffer.Length
      modifies this`table, this`currentBytes, descriptions, nameBuffer
      ensures Valid()
      ensures View() == old(View()) - {key} && currentBytes == old(currentBytes) - nameBytesNeeded - sizeofEntry
      ensures var vals := old(View())[key];
              && descriptions[i].reasonCode == NoError && |descriptions[i].propertyValues| == |vals|
              && OffsetsFrom(descriptions[i].propertyValues, vals, start)
              && nameBuffer[start..start + nameBytesNeeded] == Packed(vals, |vals|)
      ensures descriptions[..] == old(descriptions[..])[i := descriptions[i]]
      ensures nameBuffer[..start] == old(nameBuffer[..start])
      ensures nameBuffer[start + nameBytesNeeded..] == old(nameBuffer[start + nameBytesNeeded..])
    {
      Describe(entry, i, descriptions, nameBuffer, start);
      TrueSizeWithout(View(), key, sizeofEntry);
      RemoveEntry(key, nameBytesNeeded);
    }

    method Describe(entry: seq<CString?>, i: nat, descriptions: array<Description>, nameBuffer: array<char>, start: nat)
      requires i < descriptions.Length && start + NameBytes(Contents(entry)) <= nameBuffer.Length
      modifies descriptions, nameBuffer
      ensures descriptions[i].reasonCode == NoError && |descriptions[i].propertyValues| == |entry|
      ensures OffsetsFrom(descriptions[i].propertyValues, Contents(entry), start)
      ensures descriptions[..] == old(descriptions[..])[i := descriptions[i]]
      ensures nameBuffer[start..start + NameBytes(Contents(entry))] == Packed(Contents(entry), |entry|)
      ensures nameBuffer[..start] == old(nameBuffer[..start])
      ensures nameBuffer[start + NameBytes(Contents(entry))..] == old(nameBuffer[start + NameBytes(Contents(entry))..])
    {
      var offsets := CopyEntryNameBytes(entry, nameBuffer, start);
      descriptions[i] := Description(NoError, offsets);
    }

    /** The entry's strings are freed and it leaves the hash table; both are subtracted from the byte count. */
    method RemoveEntry(key: int, nameBytesNeeded: nat)
      requires Valid() && key in table && nameBytesNeeded == NameBytes(View()[key])
      requires nameBytesNeeded + sizeofEntry <= currentBytes
      requires TrueSize(View(), sizeofEntry) == sizeofEntry + nameBytesNeeded + TrueSize(View() - {key}, sizeofEntry)
      modifies this`table, this`currentBytes
      ensures Valid()
      ensures View() == old(View()) - {key} && currentBytes == old(currentBytes) - nameBytesNeeded - sizeofEntry
    {
      currentBytes := currentBytes - nameBytesNeeded;
      DropEntry(key);
      currentBytes := currentBytes - sizeofEntry;
    }

    method DropEntry(key: int)
      requires key in table && forall k :: k in table ==> |table[k]| == numProperties
      modifies this`table
      ensures forall k :: k in table ==> |table[k]| == numProperties
      ensures View() == old(View()) - {key}
    {
      CleanupEntryStrings(key);
      table := table - {key};
      assert table.Keys == old(table).Keys - {key};
      assert forall k :: k in table ==> table[k] == old(table)[k];
    }

    /**
     getEntries. `firstRetryMethod` and `nameBytesRemaining` are None where the source leaves the caller's slots alone;
     null slots are the caller's affair.
     */
    method GetEntries(enters: bool, methodArray: seq<int>, descriptions: array<Description>,
                      nameBuffer: array<char>, nameBytes: nat)
      returns (rc: Error, firstRetryMethod: Option<nat>, nameBytesRemaining: Option<nat>)
      requires Valid() && |methodArray| <= descriptions.Length && nameBytes <= nameBuffer.Length
      modifies this`table, this`currentBytes, descriptions, nameBuffer
      ensures Valid()
      ensures !enters ==>
                && rc == InternalError && Books() == old(Books())
                && descriptions[..] == old(descriptions[..]) && nameBuffer[..] == old(nameBuffer[..])
      ensures enters ==>
                var f := After(old(View()), old(currentBytes), nameBytes, methodArray, |methodArray|, sizeofEntry);
                && View() == f.table && currentBytes == f.currentBytes
                && nameBuffer[nameBytes - f.available..] == old(nameBuffer[nameBytes - f.available..])
                && rc == (if f.retry then RetryNeeded else NoError)
                && firstRetryMethod == (if f.retry then Some(f.firstRetry) else None)
                && nameBytesRemaining == (if f.retry then Some(f.remaining) else None)
      ensures enters ==> forall i {:trigger descriptions[i]} :: 0 <= i < |methodArray| ==>
                Described(descriptions[i], old(descriptions[i]), nameBuffer[..],
                          After(old(View()), old(currentBytes), nameBytes, methodArray, i, sizeofEntry),
                          methodArray[i], nameBytes)
      ensures enters ==>
                && (rc == RetryNeeded <==> Needed(old(View()), methodArray, |methodArray|) > nameBytes)
                && forall i {:trigger descriptions[i]} :: 0 <= i < |methodArray| ==>
                     CodeByTable(descriptions[i].reasonCode, old(View()), nameBytes, methodArray, i)
      ensures forall i {:trigger descriptions[i]} :: |methodArray| <= i < descriptions.Length ==>
                descriptions[i] == old(descriptions[i])
    {
      rc, firstRetryMethod, nameBytesRemaining := InternalError, None, None;
      if !enters { return; }
      ghost var books, before := Books(), descriptions[..];
      var retrying, available: nat, remaining: nat, firstRetry: nat := false, nameBytes, 0, 0;
      for i := 0 to |methodArray|
        invariant Valid() && available <= nameBytes
        invariant After(books.table, books.currentBytes, nameBytes, methodArray, i, sizeofEntry)
               == Fetch(View(), currentBytes, available, retrying, firstRetry, remaining)
        invariant AllDescribed(descriptions[..], before, nameBuffer[..], books, methodArray, i, nameBytes, sizeofEntry)
        invariant nameBuffer[nameBytes - available..] == old(nameBuffer[nameBytes - available..])
      {
        ghost var f := Fetch(View(), currentBytes, available, retrying, firstRetry, remaining);
        ghost var bufferBefore, soFar := nameBuffer[..], descriptions[..];
        ghost var kept := nameBytes - available;
        retrying, available, remaining, firstRetry :=
          FetchKey(methodArray[i], i, descriptions, nameBuffer, nameBytes, retrying, available, remaining, firstRetry, f);
        assert nameBuffer[..][..kept] == bufferBefore[..kept];
        AllDescribedAdvances(descriptions[..], soFar, before, bufferBefore, nameBuffer[..], books, methodArray, i, nameBytes,
                             sizeofEntry);
      }
      CodesByTable(descriptions[..], before, nameBuffer[..], books, methodArray, nameBytes, sizeofEntry);
      RetryIffTooMuchIsNeeded(books.table, books.currentBytes, nameBytes, methodArray, |methodArray|, sizeofEntry);
      rc := NoError;
      if retrying {
        rc := RetryNeeded;
        firstRetryMethod := Some(firstRetry);
        nameBytesRemaining := Some(remaining);
      }
    }
  }

  /** `b` with `text` written over it from `pos` on. */
  function Overwrite(b: string, pos: nat, text: string): string
    requires pos + |text| <= |b|
  {
    b[..pos] + text + b[pos + |text|..]
  }

  lemma OverwriteAppends(b: string, pos: nat, first: string, second: string)
    requires pos + |first| + |second| <= |b|
    ensures Overwrite(Overwrite(b, pos, first), pos + |first|, second) == Overwrite(b, pos, first + second)
  {
  }

  /** memcpy into the name buffer. */
  method CopyBytes(nameBuffer: array<char>, pos: nat, text: string)
    requires pos + |text| <= nameBuffer.Length
    modifies nameBuffer
    ensures nameBuffer[..] == Overwrite(old(nameBuffer[..]), pos, text)
  {
    forall i | 0 <= i < |text| {
      nameBuffer[pos + i] := text[i];
    }
  }
}
