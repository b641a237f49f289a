/** Archive acceptance and the second walk (submission/archive.go). */
module Archive {
  import opened Streams

  /** An entry name: validator.log.gz, sentry.log.gz, metadata.json, or any other path. */
  datatype Name = ValidatorLog | SentryLog | Metadata | Other(path: string)

  const DEFAULT_MAX_LOG_SIZE := 0x8000_0000      // 2 GiB
  const DEFAULT_MAX_METADATA_SIZE := 0x1_0000    // 64 KiB

  /** int64 increment, which wraps. */
  function Inc64(x: int): int {
    if x == MAX_INT64 then MIN_INT64 else x + 1
  }

  datatype Options = Options(maxLogSize: int, maxMetadataSize: int) {
    function WithDefaults(): (o: Options)
      ensures 0 < o.maxLogSize && 0 < o.maxMetadataSize
    {
      Options(if maxLogSize <= 0 then DEFAULT_MAX_LOG_SIZE else maxLogSize,
              if maxMetadataSize <= 0 then DEFAULT_MAX_METADATA_SIZE else maxMetadataSize)
    }
  }

  /** How reading an entry ends after its content: cleanly, with an unexpected end, or with another
      error. */
  datatype Ending = Whole | CutShort | Unreadable

  datatype Entry = Entry(name: Name, regular: bool, content: seq<byte>, ending: Ending)

  /** A decompressed archive: its entries, and whether the walk over them ends in an error. After an
      entry that cannot be read to its end the walk always does. */
  datatype Tar = Tar(gzip: bool, entries: seq<Entry>, corrupt: bool)

  predicate Allowed(name: Name) {
    !name.Other?
  }

  predicate IsLog(name: Name) {
    name.ValidatorLog? || name.SentryLog?
  }

  // ---------- what the archive rules say ----------

  predicate GoodLog(content: seq<byte>, limit: int) {
    limit < MAX_INT64 && 2 <= |content| <= limit && content[0] == 0x1f && content[1] == 0x8b
  }

  predicate GoodEntry(e: Entry, o: Options) {
    && Allowed(e.name) && e.regular && e.ending == Whole
    && if IsLog(e.name) then GoodLog(e.content, o.maxLogSize)
       else |e.content| <= o.maxMetadataSize
  }

  /** No two of the first `n` entries share a name. */
  ghost predicate DistinctNames(entries: seq<Entry>, n: nat)
    requires n <= |entries|
  {
    forall i, j :: 0 <= i < j < n ==> entries[i].name != entries[j].name
  }

  /** One of the first `n` entries has this name. */
  ghost predicate HasName(entries: seq<Entry>, n: nat, name: Name)
    requires n <= |entries|
  {
    exists i :: 0 <= i < n && entries[i].name == name
  }

  ghost predicate HasEntry(t: Tar, name: Name) {
    HasName(t.entries, |t.entries|, name)
  }

  /** The acceptance rules, without any order of checking. */
  ghost predicate Acceptable(t: Tar, opts: Options) {
    && t.gzip && !t.corrupt
    && (forall i :: 0 <= i < |t.entries| ==> GoodEntry(t.entries[i], opts.WithDefaults()))
    && DistinctNames(t.entries, |t.entries|)
    && HasEntry(t, ValidatorLog) && HasEntry(t, Metadata)
  }

  // ---------- validation ----------

  datatype Accepted = Accepted(metadata: seq<byte>, sentryLogPresent: bool)

  datatype Problem =
    | NotGzip | Cancelled | CorruptTar | UnexpectedEntry(name: Name) | DuplicateEntry(name: Name)
    | NotRegular(name: Name) | ReadFailed(name: Name) | TooLarge(name: Name)
    | BadMagic(name: Name) | Missing(name: Name)

  datatype Validation = Valid(accepted: Accepted) | Invalid(problem: Problem)

  /** What a LimitReader over an entry delivers: a negative limit reads as end-of-file at once. */
  function Limited(e: Entry, limit: int): seq<byte> {
    e.content[..if limit < 0 then 0 else Min(limit, |e.content|)]
  }

  /** Reading that limited entry to its end runs into the entry's own failure. */
  predicate LimitedFails(e: Entry, limit: int) {
    e.ending != Whole && |e.content| < limit
  }

  /** readBounded: drains up to limit + 1 bytes, keeping the first two. */
  method ReadBounded(e: Entry, limit: int) returns (n: int, magic: seq<byte>, err: bool)
    requires 0 < limit <= MAX_INT64 && |e.content| <= MAX_INT64
    ensures limit < MAX_INT64 ==> n == Min(|e.content|, limit + 1)
    ensures limit < MAX_INT64 ==>
      (err <==> e.ending != Whole && |e.content| <= limit && (2 <= |e.content| || e.ending == Unreadable))
    ensures limit == MAX_INT64 ==> !err && n == 0
    ensures !err && e.ending != Whole ==> n < 2 || n > limit
    ensures |magic| == 2 && (2 <= n ==> 2 <= |e.content| && magic == e.content[..2])
  {
    var cap := Inc64(limit);
    var data := Limited(e, cap);
    if |data| < 2 {
      // ReadFull of the two magic bytes fell short
      n, magic := |data|, data + seq(2 - |data|, i => 0);
      err := LimitedFails(e, cap) && e.ending == Unreadable;
      return;
    }
    n, magic, err := |data|, data[..2], LimitedFails(e, cap);
  }

  /** What is wrong with an entry, when this is the problem named. */
  predicate Explains(p: Problem, e: Entry, o: Options, seen: set<Name>) {
    match p
    case UnexpectedEntry(n) => n == e.name && n !in {ValidatorLog, SentryLog, Metadata}
    case DuplicateEntry(n) => n == e.name && n in seen
    case NotRegular(n) => n == e.name && !e.regular
    case ReadFailed(n) => n == e.name && e.ending != Whole
    case TooLarge(n) => n == e.name && |e.content| > if n == Metadata then o.maxMetadataSize else o.maxLogSize
    case BadMagic(n) =>
      n == e.name && IsLog(n) && (o.maxLogSize == MAX_INT64 || e.content[..Min(2, |e.content|)] != [31, 139])
    case _ => false
  }

  /** One accepted entry changes what the walk knows. */
  method CheckEntry(e: Entry, o: Options, seen: set<Name>) returns (p: Option<Problem>, data: seq<byte>)
    requires 0 < o.maxLogSize <= MAX_INT64 && 0 < o.maxMetadataSize <= MAX_INT64 && |e.content| <= MAX_INT64
    ensures p.None? ==> e.name !in seen && Allowed(e.name) && e.regular && (e.ending == Whole ==> GoodEntry(e, o))
    ensures p.None? && e.ending != Whole ==> e.name == Metadata
    ensures e.name !in seen && GoodEntry(e, o) ==> p.None?
    ensures p.Some? ==> Explains(p.value, e, o, seen)
    ensures p.None? && e.name == Metadata ==> data == if o.maxMetadataSize < MAX_INT64 then e.content else []
  {
    data := [];
    if !Allowed(e.name) {
      return Some(UnexpectedEntry(e.name)), data;
    }
    if e.name in seen {
      return Some(DuplicateEntry(e.name)), data;
    }
    if !e.regular {
      return Some(NotRegular(e.name)), data;
    }
    if IsLog(e.name) {
      var n, magic, err := ReadBounded(e, o.maxLogSize);
      if err {
        return Some(ReadFailed(e.name)), data;
      }
      if n > o.maxLogSize {
        return Some(TooLarge(e.name)), data;
      }
      if n < 2 || magic[0] != 0x1f || magic[1] != 0x8b {
        return Some(BadMagic(e.name)), data;
      }
    } else {
      var cap := Inc64(o.maxMetadataSize);
      if LimitedFails(e, cap) {
        return Some(ReadFailed(e.name)), data;
      }
      data := Limited(e, cap);
      if |data| > o.maxMetadataSize {
        return Some(TooLarge(e.name)), data;
      }
    }
    p := None;
  }

  datatype Step = Header(entry: Entry) | Done | Error

  /** tar.Reader.Next at the i-th header. It skips what is left of the entry before, so an entry
      that cannot be read to its end stops the walk there. A stream that is not gzip has no first
      header. */
  function NextHeader(t: Tar, i: nat): Step
    requires i <= |t.entries|
  {
    if !t.gzip then Error
    else if i > 0 && t.entries[i - 1].ending != Whole then Error
    else if i < |t.entries| then Header(t.entries[i])
    else if t.corrupt then Error else Done
  }

  ghost predicate Sized(t: Tar, opts: Options) {
    && opts.maxLogSize <= MAX_INT64 && opts.maxMetadataSize <= MAX_INT64
    && forall i :: 0 <= i < |t.entries| ==> |t.entries[i].content| <= MAX_INT64
  }

  /** What acceptance hands on: the metadata entry's content and whether a sentry log is there. At
      the very largest metadata limit the limit wraps and nothing of it is read. */
  ghost predicate Describes(a: Accepted, t: Tar, opts: Options) {
    && (a.sentryLogPresent <==> HasEntry(t, SentryLog))
    && forall i :: 0 <= i < |t.entries| && t.entries[i].name == Metadata ==>
         a.metadata == if opts.maxMetadataSize < MAX_INT64 then t.entries[i].content else []
  }

  ghost predicate CheckedSoFar(t: Tar, o: Options, i: nat, seen: set<Name>)
    requires i <= |t.entries|
  {
    && (forall k :: 0 <= k < i ==>
          Allowed(t.entries[k].name) && t.entries[k].regular
            && (t.entries[k].ending == Whole ==> GoodEntry(t.entries[k], o)))
    && (forall k :: 0 <= k < i - 1 ==> t.entries[k].ending == Whole)
    && (forall name :: name in seen <==> HasName(t.entries, i, name))
    && DistinctNames(t.entries, i)
  }

  lemma OneMoreName(entries: seq<Entry>, i: nat, name: Name)
    requires i < |entries|
    ensures HasName(entries, i + 1, name) <==> HasName(entries, i, name) || entries[i].name == name
  {
    if HasName(entries, i, name) {
      var k :| 0 <= k < i && entries[k].name == name;
      assert 0 <= k < i + 1;
    }
  }

  lemma CheckedOneMore(t: Tar, o: Options, i: nat, seen: set<Name>)
    requires i < |t.entries| && CheckedSoFar(t, o, i, seen) && NextHeader(t, i).Header?
    requires var e := t.entries[i];
             e.name !in seen && Allowed(e.name) && e.regular && (e.ending == Whole ==> GoodEntry(e, o))
    ensures CheckedSoFar(t, o, i + 1, seen + {t.entries[i].name})
  {
    forall name
      ensures name in seen + {t.entries[i].name} <==> HasName(t.entries, i + 1, name)
    {
      OneMoreName(t.entries, i, name);
    }
    forall a | 0 <= a < i
      ensures t.entries[a].name != t.entries[i].name
    {
      assert HasName(t.entries, i, t.entries[a].name);
    }
  }

  /** What is wrong with an archive, when this is the problem named. */
  ghost predicate Accounts(p: Problem, t: Tar, o: Options, ctx: nat -> bool) {
    match p
    case NotGzip => !t.gzip
    case Cancelled => exists i :: 0 <= i <= |t.entries| && ctx(i)
    case CorruptTar => t.corrupt || exists i :: 0 <= i < |t.entries| && t.entries[i].ending != Whole
    case Missing(n) =>
      !HasEntry(t, n) && (n == ValidatorLog || (n == Metadata && HasEntry(t, ValidatorLog)))
    case _ => exists i, seen :: 0 <= i < |t.entries| && NamesBefore(t, i, seen) && Explains(p, t.entries[i], o, seen)
  }

  ghost predicate NamesBefore(t: Tar, i: nat, seen: set<Name>) {
    i <= |t.entries| && forall name :: name in seen <==> HasName(t.entries, i, name)
  }

  lemma EntryAccounts(p: Problem, t: Tar, o: Options, ctx: nat -> bool, i: nat, seen: set<Name>)
    requires i < |t.entries| && NamesBefore(t, i, seen) && Explains(p, t.entries[i], o, seen)
    ensures Accounts(p, t, o, ctx)
  {
  }

  /** What is kept of the metadata entry, once the walk has passed it. */
  ghost predicate MetadataKept(t: Tar, opts: Options, i: nat, metadata: seq<byte>)
    requires i <= |t.entries|
  {
    forall k :: 0 <= k < i && t.entries[k].name == Metadata ==>
      metadata == if opts.maxMetadataSize < MAX_INT64 then t.entries[k].content else []
  }

  lemma MetadataOneMore(t: Tar, opts: Options, o: Options, i: nat, seen: set<Name>, metadata: seq<byte>,
                        data: seq<byte>)
    requires i < |t.entries| && CheckedSoFar(t, o, i, seen) && t.entries[i].name !in seen
    requires MetadataKept(t, opts, i, metadata)
    requires t.entries[i].name == Metadata ==>
      data == if opts.maxMetadataSize < MAX_INT64 then t.entries[i].content else []
    ensures MetadataKept(t, opts, i + 1, if t.entries[i].name == Metadata then data else metadata)
  {
    assert HasName(t.entries, i, Metadata) ==> Metadata in seen;
  }

  /** The walk over the entries. */
  method CheckEntries(ctx: nat -> bool, t: Tar, opts: Options)
    returns (p: Option<Problem>, seen: set<Name>, metadata: seq<byte>, sentryPresent: bool)
    requires Sized(t, opts) && t.gzip
    ensures p.Some? ==>
      && Accounts(p.value, t, opts.WithDefaults(), ctx)
      && !(Acceptable(t, opts) && forall i :: 0 <= i <= |t.entries| ==> !ctx(i))
    ensures p.None? ==>
      && CheckedSoFar(t, opts.WithDefaults(), |t.entries|, seen) && NextHeader(t, |t.entries|).Done?
      && MetadataKept(t, opts, |t.entries|, metadata) && (sentryPresent <==> SentryLog in seen)
      && forall i :: 0 <= i <= |t.entries| ==> !ctx(i)
  {
    var o := opts.WithDefaults();
    seen, metadata, sentryPresent := {}, [], false;
    var i := 0;
    while true
      invariant i <= |t.entries| && CheckedSoFar(t, o, i, seen) && MetadataKept(t, opts, i, metadata)
      invariant sentryPresent <==> SentryLog in seen
      invariant forall k :: 0 <= k < i ==> !ctx(k)
      decreases |t.entries| - i
    {
      if ctx(i) {
        return Some(Cancelled), seen, metadata, sentryPresent;
      }
      var step := NextHeader(t, i);
      if step.Done? {
        return None, seen, metadata, sentryPresent;
      }
      if step.Error? {
        return Some(CorruptTar), seen, metadata, sentryPresent;
      }
      var e := step.entry;
      var problem, data := CheckEntry(e, o, seen);
      if problem.Some? {
        if e.name in seen {
          assert HasName(t.entries, i, e.name);
        }
        EntryAccounts(problem.value, t, o, ctx, i, seen);
        return problem, seen, metadata, sentryPresent;
      }
      CheckedOneMore(t, o, i, seen);
      MetadataOneMore(t, opts, o, i, seen, metadata, data);
      seen := seen + {e.name};
      sentryPresent := sentryPresent || e.name == SentryLog;
      if e.name == Metadata {
        metadata := data;
      }
      i := i + 1;
    }
  }

  method ValidateArchive(ctx: nat -> bool, t: Tar, opts: Options) returns (v: Validation)
    requires Sized(t, opts)
    ensures v.Valid? <==> Acceptable(t, opts) && forall i :: 0 <= i <= |t.entries| ==> !ctx(i)
    ensures v.Valid? ==> Describes(v.accepted, t, opts)
    ensures v.Invalid? ==> Accounts(v.problem, t, opts.WithDefaults(), ctx)
  {
    if !t.gzip {
      return Invalid(NotGzip);
    }
    var p, seen, metadata, sentryPresent := CheckEntries(ctx, t, opts);
    if p.Some? {
      return Invalid(p.value);
    }
    if ValidatorLog !in seen {
      return Invalid(Missing(ValidatorLog));
    }
    if Metadata !in seen {
      return Invalid(Missing(Metadata));
    }
    return Valid(Accepted(metadata, sentryPresent));
  }

  // ---------- order does not matter ----------

  lemma SameMembers(s: seq<Entry>, s': seq<Entry>, i: nat) returns (j: nat)
    requires multiset(s) == multiset(s') && i < |s|
    ensures j < |s'| && s'[j] == s[i]
  {
    assert s[i] in multiset(s');
    j :| 0 <= j < |s'| && s'[j] == s[i];
  }

  lemma TwiceInSequence(s: seq<Entry>, x: Entry) returns (i: nat, j: nat)
    requires multiset(s)[x] >= 2
    ensures i < j < |s| && s[i] == x && s[j] == x
  {
    i :| 0 <= i < |s| && s[i] == x;
    var rest := s[..i] + s[i + 1..];
    assert s == s[..i] + [s[i]] + s[i + 1..];
    assert multiset(rest)[x] >= 1;
    var k :| 0 <= k < |rest| && rest[k] == x;
    if k < i {
      i, j := k, i;
    } else {
      j := k + 1;
    }
  }

  lemma TwiceInMultiset(s: seq<Entry>, i: nat, j: nat)
    requires i < j < |s| && s[i] == s[j]
    ensures multiset(s)[s[i]] >= 2
  {
    assert s == s[..i] + [s[i]] + s[i + 1..j] + [s[j]] + s[j + 1..];
  }

  lemma DistinctAnyOrder(s: seq<Entry>, s': seq<Entry>)
    requires multiset(s) == multiset(s') && DistinctNames(s, |s|)
    ensures DistinctNames(s', |s'|)
  {
    forall i, j | 0 <= i < j < |s'|
      ensures s'[i].name != s'[j].name
    {
      var a := SameMembers(s', s, i);
      var b := SameMembers(s', s, j);
      if a == b {
        TwiceInMultiset(s', i, j);
        var c, d := TwiceInSequence(s, s'[i]);
        assert false;
      }
    }
  }

  /** An archive is accepted, and described, the same way whatever the order of its entries. */
  lemma AcceptanceIgnoresOrder(t: Tar, t': Tar, opts: Options, a: Accepted)
    requires multiset(t.entries) == multiset(t'.entries) && t.gzip == t'.gzip && t.corrupt == t'.corrupt
    requires Acceptable(t, opts)
    ensures Acceptable(t', opts)
    ensures Describes(a, t, opts) ==> Describes(a, t', opts)
  {
    var o := opts.WithDefaults();
    DistinctAnyOrder(t.entries, t'.entries);
    forall i | 0 <= i < |t'.entries|
      ensures GoodEntry(t'.entries[i], o)
      ensures exists j :: 0 <= j < |t.entries| && t.entries[j] == t'.entries[i]
    {
      var j := SameMembers(t'.entries, t.entries, i);
    }
    forall name | HasEntry(t, name)
      ensures HasEntry(t', name)
    {
      var i :| 0 <= i < |t.entries| && t.entries[i].name == name;
      var j := SameMembers(t.entries, t'.entries, i);
    }
  }

  // ---------- what an accepted archive is ----------

  /** A readable regular file of this name. */
  predicate File(e: Entry, name: Name) {
    e.name == name && e.regular && e.ending == Whole
  }

  /** A log as it should be: gzip's two magic bytes, and no larger than the limit. */
  predicate LogFile(e: Entry, name: Name, limit: int) {
    File(e, name) && 2 <= |e.content| <= limit && e.content[0] == 31 && e.content[1] == 139
  }

  /** An accepted archive is two or three files in any order: validator.log.gz and metadata.json, and
      sentry.log.gz or not. The limits are the given ones, 2 GiB a log and 64 KiB of metadata where they
      are not positive. */
  lemma AcceptableExactly(t: Tar, opts: Options)
    requires opts.maxLogSize < MAX_INT64
    ensures var logLimit := if opts.maxLogSize > 0 then opts.maxLogSize else 2_147_483_648;
            var metadataLimit := if opts.maxMetadataSize > 0 then opts.maxMetadataSize else 65_536;
            Acceptable(t, opts) <==>
              && t.gzip && !t.corrupt
              && exists log, metadata :: IsArchive(t.entries, log, metadata, logLimit, metadataLimit)
  {
    var o := opts.WithDefaults();
    if Acceptable(t, opts) {
      var log, metadata := FilesOf(t, opts);
    }
    if log, metadata :| IsArchive(t.entries, log, metadata, o.maxLogSize, o.maxMetadataSize) && t.gzip && !t.corrupt {
      ArchiveIsAcceptable(t, opts, log, metadata);
    }
  }

  lemma FilesOf(t: Tar, opts: Options) returns (log: Entry, metadata: Entry)
    requires Acceptable(t, opts)
    ensures var o := opts.WithDefaults(); IsArchive(t.entries, log, metadata, o.maxLogSize, o.maxMetadataSize)
  {
    var es, o := t.entries, opts.WithDefaults();
    var a :| 0 <= a < |es| && es[a].name == ValidatorLog;
    var b :| 0 <= b < |es| && es[b].name == Metadata;
    AtMostThree(t, opts);
    assert GoodEntry(es[a], o) && GoodEntry(es[b], o) && a != b;
    log, metadata := es[a], es[b];
    if |es| == 2 {
      AnyOrderOfTwo(es, a, b);
    } else {
      var c := 3 - a - b;
      AnyOrderOfThree(es, a, b, c);
      ThirdIsSentry(t, opts, a, b, c);
    }
  }

  lemma ThirdIsSentry(t: Tar, opts: Options, a: nat, b: nat, c: nat)
    requires Acceptable(t, opts) && a < |t.entries| && b < |t.entries| && c < |t.entries| && c != a && c != b
    requires t.entries[a].name == ValidatorLog && t.entries[b].name == Metadata
    ensures LogFile(t.entries[c], SentryLog, opts.WithDefaults().maxLogSize)
  {
    assert GoodEntry(t.entries[c], opts.WithDefaults());
  }

  lemma AnyOrderOfTwo(es: seq<Entry>, a: nat, b: nat)
    requires |es| == 2 && a < 2 && b < 2 && a != b
    ensures multiset(es) == multiset{es[a], es[b]}
  {
    assert es == [es[0], es[1]];
  }

  lemma AnyOrderOfThree(es: seq<Entry>, a: nat, b: nat, c: nat)
    requires |es| == 3 && a < 3 && b < 3 && c < 3 && a != b && a != c && b != c
    ensures multiset(es) == multiset{es[a], es[b], es[c]}
  {
    assert es == [es[0], es[1], es[2]];
  }

  lemma AtMostThree(t: Tar, opts: Options)
    requires Acceptable(t, opts)
    ensures 2 <= |t.entries| <= 3
  {
    var es := t.entries;
    forall k | 0 <= k < |es|
      ensures es[k].name in {ValidatorLog, SentryLog, Metadata}
    {
      assert GoodEntry(es[k], opts.WithDefaults());
    }
    if |es| > 3 {
      var i, j := SharedName(es);
    }
  }

  lemma SharedName(es: seq<Entry>) returns (i: nat, j: nat)
    requires |es| > 3 && forall k :: 0 <= k < |es| ==> es[k].name in {ValidatorLog, SentryLog, Metadata}
    ensures i < j < |es| && es[i].name == es[j].name
  {
    i, j := 0, 1;
    if es[0].name != es[1].name {
      j := 2;
      if es[2].name != es[0].name && es[2].name != es[1].name {
        j := 3;
        i := if es[3].name == es[0].name then 0 else if es[3].name == es[1].name then 1 else 2;
      } else {
        i := if es[2].name == es[0].name then 0 else 1;
      }
    }
  }

  lemma ArchiveIsAcceptable(t: Tar, opts: Options, log: Entry, metadata: Entry)
    requires t.gzip && !t.corrupt && opts.maxLogSize < MAX_INT64
    requires var o := opts.WithDefaults(); IsArchive(t.entries, log, metadata, o.maxLogSize, o.maxMetadataSize)
    ensures Acceptable(t, opts)
  {
    var o := opts.WithDefaults();
    var es := [log, metadata];
    if multiset(t.entries) != multiset(es) {
      var sentry :| LogFile(sentry, SentryLog, o.maxLogSize) && multiset(t.entries) == multiset{log, metadata, sentry};
      es := [log, metadata, sentry];
    }
    var t' := Tar(true, es, false);
    assert es[0] == log && es[1] == metadata;
    assert HasEntry(t', ValidatorLog) && HasEntry(t', Metadata);
    AcceptanceIgnoresOrder(t', t, opts, Accepted([], false));
  }

  ghost predicate IsArchive(entries: seq<Entry>, log: Entry, metadata: Entry, logLimit: int, metadataLimit: int) {
    && LogFile(log, ValidatorLog, logLimit) && File(metadata, Metadata) && |metadata.content| <= metadataLimit
    && (|| multiset(entries) == multiset{log, metadata}
        || exists sentry :: && LogFile(sentry, SentryLog, logLimit)
                            && multiset(entries) == multiset{log, metadata, sentry})
  }

  // ---------- the second walk ----------

  /** One call of ScanLogs' callback: the entry's name, what its bounded reader delivers, and whether
      that reader fails at the end. */
  datatype Visit = Visit(name: Name, log: seq<byte>, broken: bool)

  function VisitOf(e: Entry, limit: int): Visit {
    Visit(e.name, Limited(e, limit), LimitedFails(e, limit))
  }

  /** The log entries a walk from header `i` visits. */
  function LogsFrom(t: Tar, limit: int, i: nat): seq<Visit>
    requires i <= |t.entries|
    decreases |t.entries| - i
  {
    match NextHeader(t, i)
    case Header(e) => (if IsLog(e.name) then [VisitOf(e, limit)] else []) + LogsFrom(t, limit, i + 1)
    case _ => []
  }

  /** That walk ends in an error rather than at the end of the archive. */
  predicate WalkFails(t: Tar, i: nat)
    requires i <= |t.entries|
    decreases |t.entries| - i
  {
    match NextHeader(t, i)
    case Header(e) => WalkFails(t, i + 1)
    case Done => false
    case Error => true
  }

  datatype WalkStep = Log(visit: Visit) | Finished | Stopped

  /** ScanLogs, one callback at a time. */
  class LogWalk {
    const t: Tar
    const limit: int
    const ctx: nat -> bool
    var i: nat

    ghost predicate Valid()
      reads this
    {
      i <= |t.entries|
    }

    /** What is still to be visited. */
    ghost function Rest(): seq<Visit>
      reads this
      requires Valid()
    {
      LogsFrom(t, limit, i)
    }

    constructor (t: Tar, opts: Options, ctx: nat -> bool)
      ensures Valid() && this.t == t && limit == opts.WithDefaults().maxLogSize && this.ctx == ctx && i == 0
    {
      this.t, limit, this.ctx, i := t, opts.WithDefaults().maxLogSize, ctx, 0;
    }

    method Next() returns (s: WalkStep)
      requires Valid()
      modifies this
      ensures Valid() && old(i) <= i
      ensures s.Log? ==>
        IsLog(s.visit.name) && old(Rest()) == [s.visit] + Rest() && WalkFails(t, i) == old(WalkFails(t, i))
      ensures s.Finished? ==> old(Rest()) == [] && !old(WalkFails(t, i))
      ensures s.Stopped? ==> old(WalkFails(t, i)) || exists k :: old(i) <= k <= |t.entries| && ctx(k)
    {
      while true
        invariant Valid() && old(i) <= i
        invariant Rest() == old(Rest()) && WalkFails(t, i) == old(WalkFails(t, i))
        decreases |t.entries| - i
      {
        if ctx(i) {
          return Stopped;
        }
        var step := NextHeader(t, i);
        if step.Done? {
          return Finished;
        }
        if step.Error? {
          return Stopped;
        }
        i := i + 1;
        if IsLog(step.entry.name) {
          return Log(VisitOf(step.entry, limit));
        }
      }
    }
  }

  /** Of `all` visits `done` are made and `rest` are to come. */
  ghost predicate Walked(all: seq<Visit>, done: seq<Visit>, rest: seq<Visit>) {
    done <= all && all[|done|..] == rest
  }

  lemma WalkOneMore(all: seq<Visit>, done: seq<Visit>, v: Visit, rest: seq<Visit>)
    requires Walked(all, done, [v] + rest)
    ensures |done| < |all| && all[|done|] == v && Walked(all, done + [v], rest)
  {
    assert all[|done|..][0] == v && all[|done|..][1..] == rest;
  }

  ghost predicate DistinctVisits(vs: seq<Visit>) {
    forall a, b :: 0 <= a < b < |vs| ==> vs[a].name != vs[b].name
  }

  /** `v` is one of the log entries from header `i` on, in full. */
  ghost predicate WholeLog(t: Tar, i: nat, v: Visit) {
    exists k :: i <= k < |t.entries| && IsLog(t.entries[k].name)
      && v == Visit(t.entries[k].name, t.entries[k].content, false)
  }

  lemma OneMoreVisit(t: Tar, i: nat, rest: seq<Visit>)
    requires i < |t.entries| && IsLog(t.entries[i].name) && DistinctNames(t.entries, |t.entries|)
    requires DistinctVisits(rest) && forall v :: v in rest <==> WholeLog(t, i + 1, v)
    ensures var vs := [Visit(t.entries[i].name, t.entries[i].content, false)] + rest;
            DistinctVisits(vs) && forall v :: v in vs <==> WholeLog(t, i, v)
  {
    var first := Visit(t.entries[i].name, t.entries[i].content, false);
    var vs := [first] + rest;
    forall b | 0 <= b < |rest|
      ensures rest[b].name != first.name
    {
      assert rest[b] in rest;
    }
    forall v | v in vs
      ensures WholeLog(t, i, v)
    {
      if v != first {
        assert WholeLog(t, i + 1, v);
      }
    }
  }

  lemma {:induction false} VisitsOfAccepted(t: Tar, o: Options, i: nat)
    requires i <= |t.entries| && t.gzip && !t.corrupt && DistinctNames(t.entries, |t.entries|)
    requires forall k :: 0 <= k < |t.entries| ==> GoodEntry(t.entries[k], o)
    ensures !WalkFails(t, i) && DistinctVisits(LogsFrom(t, o.maxLogSize, i))
    ensures forall v :: v in LogsFrom(t, o.maxLogSize, i) <==> WholeLog(t, i, v)
    decreases |t.entries| - i
  {
    if i < |t.entries| {
      VisitsOfAccepted(t, o, i + 1);
      var e, rest := t.entries[i], LogsFrom(t, o.maxLogSize, i + 1);
      if IsLog(e.name) {
        assert VisitOf(e, o.maxLogSize) == Visit(e.name, e.content, false);
        OneMoreVisit(t, i, rest);
      } else {
        assert [] + rest == rest;
        assert forall v :: WholeLog(t, i + 1, v) <==> WholeLog(t, i, v);
      }
    }
  }

  /** The two walks agree: an accepted archive's logs are visited once each and in full, the validator
      log always and the sentry log exactly when acceptance reported it, and the walk reaches its end. */
  lemma SecondWalkAgrees(t: Tar, opts: Options, a: Accepted)
    requires Acceptable(t, opts) && Describes(a, t, opts)
    ensures var vs := LogsFrom(t, opts.WithDefaults().maxLogSize, 0);
            && !WalkFails(t, 0) && DistinctVisits(vs)
            && (forall v :: v in vs <==> WholeLog(t, 0, v))
            && |vs| == (if a.sentryLogPresent then 2 else 1)
            && (exists v :: v in vs && v.name == ValidatorLog)
            && (a.sentryLogPresent <==> exists v :: v in vs && v.name == SentryLog)
  {
    var o := opts.WithDefaults();
    VisitsOfAccepted(t, o, 0);
    var vs := LogsFrom(t, o.maxLogSize, 0);
    var k :| 0 <= k < |t.entries| && t.entries[k].name == ValidatorLog;
    assert WholeLog(t, 0, Visit(ValidatorLog, t.entries[k].content, false));
    if a.sentryLogPresent {
      var m :| 0 <= m < |t.entries| && t.entries[m].name == SentryLog;
      assert WholeLog(t, 0, Visit(SentryLog, t.entries[m].content, false));
    }
    CountVisits(vs);
  }

  lemma AtMostTwoVisits(vs: seq<Visit>)
    requires DistinctVisits(vs) && forall v :: v in vs ==> IsLog(v.name)
    ensures |vs| <= 2
  {
    if |vs| > 2 {
      VisitPair(vs, 0, 1);
      VisitPair(vs, 0, 2);
      VisitPair(vs, 1, 2);
    }
  }

  lemma VisitPair(vs: seq<Visit>, i: nat, j: nat)
    requires DistinctVisits(vs) && (forall v :: v in vs ==> IsLog(v.name)) && i < j < |vs|
    ensures IsLog(vs[i].name) && IsLog(vs[j].name) && vs[i].name != vs[j].name
  {
    assert vs[i] in vs && vs[j] in vs;
  }

  lemma CountVisits(vs: seq<Visit>)
    requires DistinctVisits(vs) && forall v :: v in vs ==> IsLog(v.name)
    requires exists v :: v in vs && v.name == ValidatorLog
    ensures |vs| == if exists v :: v in vs && v.name == SentryLog then 2 else 1
  {
    AtMostTwoVisits(vs);
    assert forall j :: 0 <= j < |vs| ==> vs[j] in vs;
    if |vs| == 1 {
      assert forall v :: v in vs ==> v == vs[0];
    } else {
      assert vs[0].name != vs[1].name;
      assert vs[if vs[0].name == SentryLog then 0 else 1].name == SentryLog;
    }
  }

  // ---------- larger limits ----------

  /** At the largest limit the size check overflows: with MaxLogSize at the top of int64 no archive
      is accepted, although every log is within the limit. */
  lemma LargestLimitRejectsAll(t: Tar, opts: Options)
    requires opts.maxLogSize == MAX_INT64
    ensures !Acceptable(t, opts)
  {
    if HasEntry(t, ValidatorLog) {
      var k :| 0 <= k < |t.entries| && t.entries[k].name == ValidatorLog;
      assert !GoodEntry(t.entries[k], opts.WithDefaults());
    }
  }

  /** Both limits of `opts'` are at least those of `opts`. */
  predicate Loosens(opts': Options, opts: Options) {
    var o, o' := opts.WithDefaults(), opts'.WithDefaults();
    o.maxLogSize <= o'.maxLogSize && o.maxMetadataSize <= o'.maxMetadataSize
  }

  /** What was accepted is accepted under looser limits too, exactly when the log limit does not reach
      the top of int64. */
  lemma LooserLimitsAcceptExactly(t: Tar, opts: Options, opts': Options)
    requires Acceptable(t, opts) && Loosens(opts', opts) && opts'.maxLogSize <= MAX_INT64
    ensures Acceptable(t, opts') <==> opts'.maxLogSize != MAX_INT64
  {
    if opts'.maxLogSize == MAX_INT64 {
      LargestLimitRejectsAll(t, opts');
    } else {
      forall k | 0 <= k < |t.entries|
        ensures GoodEntry(t.entries[k], opts'.WithDefaults())
      {
        assert GoodEntry(t.entries[k], opts.WithDefaults());
      }
    }
  }

  /** One such archive: accepted just below the top of int64, rejected at it. */
  lemma RejectedAtTheTop() returns (t: Tar)
    ensures Acceptable(t, Options(MAX_INT64 - 1, 0)) && !Acceptable(t, Options(MAX_INT64, 0))
  {
    var log := Entry(ValidatorLog, true, [0x1f, 0x8b], Whole);
    var metadata := Entry(Metadata, true, [], Whole);
    t := Tar(true, [log, metadata], false);
    assert t.entries[0] == log && t.entries[1] == metadata;
    LargestLimitRejectsAll(t, Options(MAX_INT64, 0));
  }
}
