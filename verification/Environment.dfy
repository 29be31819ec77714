// Saving the whole CGI environment to a file, and restoring it.
module EnvironmentFiles {
  import opened Bytes
  import opened Forms
  import opened FormLists

  // ----- integers and strings in a file

  predicate IsInt32(i: int) {
    -0x8000_0000 <= i < 0x8000_0000
  }

  /** A 32-bit int as it lies in the memory of a little-endian machine. */
  function IntBytes(i: int): (r: seq<byte>)
    requires IsInt32(i)
    ensures |r| == 4
  {
    var u := if i < 0 then i + 0x1_0000_0000 else i;
    [u % 256, u / 256 % 256, u / 0x1_0000 % 256, u / 0x100_0000]
  }

  function IntOf(b: seq<byte>): int
    requires |b| == 4
  {
    var b0: int, b1: int, b2: int, b3: int := b[0], b[1], b[2], b[3];
    var u := b0 + 256 * b1 + 0x1_0000 * b2 + 0x100_0000 * b3;
    if u >= 0x8000_0000 then u - 0x1_0000_0000 else u
  }

  lemma IntRoundTrip(i: int)
    requires IsInt32(i)
    ensures IntOf(IntBytes(i)) == i
  {
    var u := if i < 0 then i + 0x1_0000_0000 else i;
    assert u == 256 * (u / 256) + u % 256;
    assert u / 0x1_0000 == u / 256 / 256 && u / 0x100_0000 == u / 256 / 256 / 256;
    assert u / 256 == 256 * (u / 256 / 256) + u / 256 % 256;
    assert u / 256 / 256 == 256 * (u / 256 / 256 / 256) + u / 256 / 256 % 256;
  }

  function StringBytes(s: seq<byte>): seq<byte>
    requires |s| < 0x8000_0000
  {
    IntBytes(|CStr(s)|) + CStr(s)
  }

  function ReadInt(f: seq<byte>): (r: Option<(int, seq<byte>)>)
    ensures r.Some? ==> |r.value.1| < |f|
  {
    if |f| < 4 then None else Some((IntOf(f[..4]), f[4..]))
  }

  /** A string with its length in front. No block of a negative length can be had. */
  function ReadString(f: seq<byte>): (r: Option<(seq<byte>, seq<byte>)>)
    ensures r.Some? ==> |r.value.1| < |f|
  {
    match ReadInt(f)
    case None => None
    case Some((len, rest)) =>
      if 0 <= len <= |rest| then Some((rest[..len], rest[len..])) else None
  }

  lemma ReadWrittenInt(i: int, rest: seq<byte>)
    requires IsInt32(i)
    ensures ReadInt(IntBytes(i) + rest) == Some((i, rest))
  {
    assert (IntBytes(i) + rest)[..4] == IntBytes(i) && (IntBytes(i) + rest)[4..] == rest;
    IntRoundTrip(i);
  }

  lemma ReadStringIs(f: seq<byte>, s: seq<byte>, rest: seq<byte>)
    requires ReadInt(f) == Some((|s|, s + rest))
    ensures ReadString(f) == Some((s, rest))
  {
  }

  lemma ReadWrittenString(s: seq<byte>, rest: seq<byte>)
    requires |s| < 0x8000_0000
    ensures ReadString(StringBytes(s) + rest) == Some((CStr(s), rest))
  {
    hide IntBytes, ReadInt, ReadString, CStr;
    var c := CStr(s);
    assert StringBytes(s) + rest == IntBytes(|c|) + (c + rest);
    ReadWrittenInt(|c|, c + rest);
    ReadStringIs(StringBytes(s) + rest, c, rest);
  }

  // ----- what is saved

  datatype Environment = Environment(
    serverSoftware: seq<byte>, serverName: seq<byte>, gatewayInterface: seq<byte>, serverProtocol: seq<byte>,
    serverPort: seq<byte>, requestMethod: seq<byte>, pathInfo: seq<byte>, pathTranslated: seq<byte>,
    scriptName: seq<byte>, queryString: seq<byte>, remoteHost: seq<byte>, remoteAddr: seq<byte>,
    authType: seq<byte>, remoteUser: seq<byte>, remoteIdent: seq<byte>, contentType: seq<byte>,
    accept: seq<byte>, userAgent: seq<byte>, referrer: seq<byte>, cookie: seq<byte>,
    contentLength: int, entries: seq<Entry>)

  const VARIABLES: nat := 20

  function VersionName(): seq<byte> {
    Ascii("CGIC2.0")
  }

  /** The string variables, in the order in which they are written. */
  function Variables(env: Environment): (r: seq<seq<byte>>)
    ensures |r| == VARIABLES
  {
    [env.serverSoftware, env.serverName, env.gatewayInterface, env.serverProtocol, env.serverPort,
     env.requestMethod, env.pathInfo, env.pathTranslated, env.scriptName, env.queryString,
     env.remoteHost, env.remoteAddr, env.authType, env.remoteUser, env.remoteIdent, env.contentType,
     env.accept, env.userAgent, env.referrer, env.cookie]
  }

  /** The environment whose variables were read, in the order of the reader. */
  function FromVariables(v: seq<seq<byte>>, contentLength: int, entries: seq<Entry>): Environment
    requires |v| == VARIABLES
  {
    Environment(v[0], v[1], v[2], v[3], v[4], v[5], v[6], v[7], v[8], v[9], v[10], v[11], v[12], v[13], v[14],
                v[15], v[16], v[17], v[18], v[19], contentLength, entries)
  }

  /** The upload that opening a field by name gives: that of the first entry with
      the name. */
  function Opened(entries: seq<Entry>, name: seq<byte>): Option<seq<byte>> {
    var m := Matches(entries, name);
    if m == [] then None else m[0].upload
  }

  function FileBytes(upload: Option<seq<byte>>): seq<byte> {
    match upload
    case None => IntBytes(0)
    case Some(content) => IntBytes(1) + content
  }

  ghost predicate Storable(e: Entry) {
    && |e.attr| < 0x8000_0000 && |e.value| < 0x8000_0000 && |e.fileName| < 0x8000_0000
    && |e.contentType| < 0x8000_0000 && IsInt32(e.valueLength)
  }

  function EntryBytes(e: Entry, upload: Option<seq<byte>>): seq<byte>
    requires Storable(e)
  {
    StringBytes(e.attr) + StringBytes(e.value) + StringBytes(e.fileName) + StringBytes(e.contentType) +
    IntBytes(e.valueLength) + FileBytes(upload)
  }

  /** The entries as they are written: each with the upload found under its name
      in the whole list. */
  function EntriesBytes(entries: seq<Entry>, all: seq<Entry>): seq<byte>
    requires forall i :: 0 <= i < |entries| ==> Storable(entries[i])
  {
    if entries == [] then []
    else EntryBytes(entries[0], Opened(all, entries[0].attr)) + EntriesBytes(entries[1..], all)
  }

  function StringsBytes(strings: seq<seq<byte>>): seq<byte>
    requires forall i :: 0 <= i < |strings| ==> |strings[i]| < 0x8000_0000
  {
    if strings == [] then [] else StringBytes(strings[0]) + StringsBytes(strings[1..])
  }

  ghost predicate Saveable(env: Environment) {
    && (forall i :: 0 <= i < VARIABLES ==> |Variables(env)[i]| < 0x8000_0000)
    && IsInt32(env.contentLength)
    && forall i :: 0 <= i < |env.entries| ==> Storable(env.entries[i])
  }

  function Saved(env: Environment): seq<byte>
    requires Saveable(env)
  {
    StringBytes(VersionName()) + StringsBytes(Variables(env)) + IntBytes(env.contentLength) +
    EntriesBytes(env.entries, env.entries)
  }

  // ----- what is restored

  datatype ReadFailure = EnvironmentIO | EnvironmentMemory | EnvironmentWrongVersion

  datatype EntryRead = EndOfList | Got(entry: Entry, rest: seq<byte>) | Bad(failure: ReadFailure)

  /** The upload behind an entry: as many bytes as the stored length says. */
  function ReadUpload(f: seq<byte>, flag: int, len: int): (r: Option<(Option<seq<byte>>, seq<byte>)>)
    ensures r.Some? ==> |r.value.1| <= |f|
  {
    if flag == 0 then Some((None, f))
    else if len <= 0 then Some((Some([]), f))
    else if len <= |f| then Some((Some(f[..len]), f[len..]))
    else None
  }

  /** What follows the strings of an entry. */
  function ReadRest(f: seq<byte>, attr: seq<byte>, value: seq<byte>, fileName: seq<byte>, contentType: seq<byte>)
    : (r: EntryRead)
    ensures r.Got? ==> |r.rest| < |f|
  {
    match ReadInt(f) case None => Bad(EnvironmentMemory) case Some((valueLength, f5)) =>
    match ReadInt(f5) case None => Bad(EnvironmentMemory) case Some((flag, f6)) =>
    match ReadUpload(f6, flag, valueLength) case None => Bad(EnvironmentIO) case Some((upload, rest)) =>
    Got(Entry(attr, value, valueLength, fileName, contentType, upload), rest)
  }

  /** A missing name ends the list; anything missing behind a name is an error. */
  function ReadEntry(f: seq<byte>): (r: EntryRead)
    ensures r.Got? ==> |r.rest| < |f|
  {
    match ReadString(f) case None => EndOfList case Some((attr, f1)) =>
    match ReadString(f1) case None => Bad(EnvironmentMemory) case Some((value, f2)) =>
    match ReadString(f2) case None => Bad(EnvironmentMemory) case Some((fileName, f3)) =>
    match ReadString(f3) case None => Bad(EnvironmentMemory) case Some((contentType, f4)) =>
    ReadRest(f4, attr, value, fileName, contentType)
  }

  datatype Result<+T> = Ok(value: T) | Failed(failure: ReadFailure)

  function ReadEntries(f: seq<byte>, before: seq<Entry>): Result<seq<Entry>>
    decreases |f|
  {
    match ReadEntry(f)
    case EndOfList => Ok(before)
    case Bad(failure) => Failed(failure)
    case Got(e, rest) => ReadEntries(rest, before + [e])
  }

  function ReadStrings(f: seq<byte>, n: nat, before: seq<seq<byte>>): (r: Option<(seq<seq<byte>>, seq<byte>)>)
    ensures r.Some? ==> |r.value.0| == |before| + n
  {
    if n == 0 then Some((before, f))
    else match ReadString(f)
      case None => None
      case Some((s, rest)) => ReadStrings(rest, n - 1, before + [s])
  }

  function Restored(f: seq<byte>): Result<Environment> {
    match ReadString(f) case None => Failed(EnvironmentIO) case Some((version, f1)) =>
    if CStr(version) != VersionName() then Failed(EnvironmentWrongVersion) else
    match ReadStrings(f1, VARIABLES, []) case None => Failed(EnvironmentIO) case Some((variables, f2)) =>
    match ReadInt(f2) case None => Failed(EnvironmentIO) case Some((contentLength, f3)) =>
    match ReadEntries(f3, [])
    case Failed(failure) => Failed(failure)
    case Ok(entries) => Ok(FromVariables(variables, contentLength, entries))
  }

  // ----- reading back what was written

  /** Strings come back as they were if they have no NUL; an upload comes back if
      its size is the stored length. */
  ghost predicate Sound(e: Entry) {
    && Storable(e)
    && NUL !in e.attr && NUL !in e.value && NUL !in e.fileName && NUL !in e.contentType
    && (e.upload.Some? ==> e.valueLength == |e.upload.value|)
  }

  /** The part of an entry before the upload. */
  lemma ReadWrittenHead(e: Entry, upload: Option<seq<byte>>, rest: seq<byte>)
    requires Sound(e)
    ensures var f6 := if upload.Some? then upload.value + rest else rest;
            ReadEntry(EntryBytes(e, upload) + rest) ==
            match ReadUpload(f6, if upload.Some? then 1 else 0, e.valueLength)
            case None => Bad(EnvironmentIO)
            case Some((found, after)) => Got(e.(upload := found), after)
  {
    hide ReadInt, ReadString, FileBytes, IntBytes, StringBytes, CStr, ReadUpload;
    var f5 := FileBytes(upload) + rest;
    var f4 := IntBytes(e.valueLength) + f5;
    var f3 := StringBytes(e.contentType) + f4;
    var f2 := StringBytes(e.fileName) + f3;
    var f1 := StringBytes(e.value) + f2;
    EntryBytesAre(e, upload, rest);
    assert EntryBytes(e, upload) + rest == StringBytes(e.attr) + f1;
    CStrOfNulFree(e.attr);
    CStrOfNulFree(e.value);
    CStrOfNulFree(e.fileName);
    CStrOfNulFree(e.contentType);
    ReadWrittenString(e.attr, f1);
    ReadWrittenString(e.value, f2);
    ReadWrittenString(e.fileName, f3);
    ReadWrittenString(e.contentType, f4);
    ReadWrittenInt(e.valueLength, f5);
    ReadWrittenFlag(upload, rest);
  }

  lemma EntryBytesAre(e: Entry, upload: Option<seq<byte>>, rest: seq<byte>)
    requires Storable(e)
    ensures EntryBytes(e, upload) + rest ==
            StringBytes(e.attr) + (StringBytes(e.value) + (StringBytes(e.fileName) + (StringBytes(e.contentType) +
            (IntBytes(e.valueLength) + (FileBytes(upload) + rest)))))
  {
    hide FileBytes, IntBytes, StringBytes;
  }

  lemma ReadWrittenFlag(upload: Option<seq<byte>>, rest: seq<byte>)
    ensures ReadInt(FileBytes(upload) + rest) == Some((if upload.Some? then 1 else 0,
                                                       if upload.Some? then upload.value + rest else rest))
  {
    hide IntBytes, ReadInt;
    match upload {
      case None => ReadWrittenInt(0, rest);
      case Some(content) =>
        ReadWrittenInt(1, content + rest);
        assert IntBytes(1) + content + rest == IntBytes(1) + (content + rest);
    }
  }

  /** For an entry written with any upload: it comes back if and only if both have
      none, or what follows the flag starts with the entry's own. */
  lemma EntryComesBackIff(e: Entry, upload: Option<seq<byte>>, rest: seq<byte>)
    requires Sound(e)
    ensures var r := ReadEntry(EntryBytes(e, upload) + rest);
            match e.upload
            case None => (r.Got? && r.entry == e) <==> upload.None?
            case Some(own) =>
              && ((r.Got? && r.entry == e) <==> upload.Some? && own <= upload.value + rest)
              && (r.Got? && r.entry == e ==> r.rest == (upload.value + rest)[|own|..])
    ensures upload.None? && e.upload.None? ==> ReadEntry(EntryBytes(e, upload) + rest) == Got(e, rest)
  {
    hide ReadEntry, EntryBytes;
    ReadWrittenHead(e, upload, rest);
    var f := if upload.Some? then upload.value + rest else rest;
    var found := ReadUpload(f, if upload.Some? then 1 else 0, e.valueLength);
    if found.Some? {
      assert e.(upload := found.value.0).upload == found.value.0;
    }
    if e.upload.Some? {
      var own := e.upload.value;
      assert own <= f <==> |own| <= |f| && f[..|own|] == own;
    }
  }

  /** An upload that is cut short is an error. */
  lemma CutUploadIsAnError(e: Entry, cut: seq<byte>)
    requires Sound(e) && e.upload.Some? && |cut| < |e.upload.value|
    ensures ReadEntry(EntryBytes(e, Some(cut)) + []) == Bad(EnvironmentIO)
  {
    hide ReadEntry, EntryBytes;
    ReadWrittenHead(e, Some(cut), []);
    assert cut + [] == cut;
  }

  /** So is an entry that ends behind its name. */
  lemma CutEntryIsAnError(name: seq<byte>)
    requires |name| < 0x8000_0000
    ensures ReadEntry(StringBytes(name) + []) == Bad(EnvironmentMemory)
  {
    hide StringBytes, CStr;
    ReadWrittenString(name, []);
    assert ReadString([]) == None;
    hide ReadString;
  }

  /** Neither upload is the start of the other, unless they are equal. */
  ghost predicate Distinct(u: Option<seq<byte>>, v: Option<seq<byte>>) {
    u.Some? && v.Some? ==> !(u.value < v.value) && !(v.value < u.value)
  }

  /** An entry comes back when it was written with its own upload; with another
      one, the reader fails or comes to a different entry. */
  lemma EntryComesBack(e: Entry, upload: Option<seq<byte>>, rest: seq<byte>)
    requires Sound(e) && Distinct(upload, e.upload)
    ensures var r := ReadEntry(EntryBytes(e, upload) + rest);
            if upload == e.upload then r == Got(e, rest) else r.Bad? || (r.Got? && r.entry != e)
  {
    hide ReadEntry, EntryBytes;
    EntryComesBackIff(e, upload, rest);
    ReadWrittenHead(e, upload, rest);
    if upload.Some? && e.upload.Some? {
      var own, other := e.upload.value, upload.value;
      assert (other + rest)[..|other|] == other;
      assert own == other ==> (other + rest)[|own|..] == rest;
      assert |own| <= |other| && own <= other + rest ==> own <= other;
      assert |own| > |other| && own <= other + rest ==> other <= own;
    }
  }

  /** An upload whose start is the entry's own is not noticed: what is left of it
      is read as what follows. */
  lemma LongerUploadIsCut(e: Entry, more: seq<byte>, rest: seq<byte>)
    requires Sound(e) && e.upload.Some?
    ensures ReadEntry(EntryBytes(e, Some(e.upload.value + more)) + rest) == Got(e, more + rest)
  {
    hide ReadEntry, EntryBytes;
    var own := e.upload.value;
    EntryComesBackIff(e, Some(own + more), rest);
    assert own + more + rest == own + (more + rest);
    assert (own + (more + rest))[..|own|] == own && (own + (more + rest))[|own|..] == more + rest;
  }

  lemma {:induction false} ReadEntriesKeeps(f: seq<byte>, before: seq<Entry>)
    ensures ReadEntries(f, before).Ok? ==> before <= ReadEntries(f, before).value
    decreases |f|
  {
    hide ReadEntry;
    var r := ReadEntry(f);
    if r.Got? {
      ReadEntriesKeeps(r.rest, before + [r.entry]);
    }
  }

  ghost predicate AllSound(entries: seq<Entry>, all: seq<Entry>) {
    forall i :: 0 <= i < |entries| ==> Sound(entries[i]) && Distinct(Opened(all, entries[i].attr), entries[i].upload)
  }

  /** Opening each entry by its name gives its own upload. */
  ghost predicate OwnUploads(entries: seq<Entry>, all: seq<Entry>) {
    forall i :: 0 <= i < |entries| ==> Opened(all, entries[i].attr) == entries[i].upload
  }

  lemma NothingToRead(before: seq<Entry>)
    ensures ReadEntries([], before) == Ok(before)
  {
  }

  lemma OwnUploadsStep(entries: seq<Entry>, all: seq<Entry>)
    requires entries != []
    ensures OwnUploads(entries, all) <==>
            Opened(all, entries[0].attr) == entries[0].upload && OwnUploads(entries[1..], all)
  {
  }

  lemma SoundTail(entries: seq<Entry>, all: seq<Entry>)
    requires AllSound(entries, all) && entries != []
    ensures AllSound(entries[1..], all) && Sound(entries[0])
    ensures Distinct(Opened(all, entries[0].attr), entries[0].upload)
    ensures forall i :: 0 <= i < |entries| ==> Storable(entries[i])
    ensures forall i :: 0 <= i < |entries[1..]| ==> Storable(entries[1..][i])
  {
  }

  /** One entry in front of a list that is read on its own. */
  lemma FirstEntryIff(e: Entry, upload: Option<seq<byte>>, rest: seq<byte>, before: seq<Entry>, tail: seq<Entry>)
    requires Sound(e) && Distinct(upload, e.upload)
    ensures ReadEntries(EntryBytes(e, upload) + rest, before) == Ok(before + ([e] + tail)) <==>
            upload == e.upload && ReadEntries(rest, before + [e]) == Ok(before + [e] + tail)
  {
    hide ReadEntry, EntryBytes, Distinct;
    EntryComesBack(e, upload, rest);
    assert before + ([e] + tail) == before + [e] + tail;
    var r := ReadEntry(EntryBytes(e, upload) + rest);
    if r.Got? && upload != e.upload {
      ReadEntriesKeeps(r.rest, before + [r.entry]);
      assert (before + [e] + tail)[|before|] == e;
      assert (before + [r.entry])[|before|] == r.entry;
    }
  }

  lemma {:induction false} EntriesComeBackIff(entries: seq<Entry>, all: seq<Entry>, before: seq<Entry>)
    requires AllSound(entries, all)
    ensures forall i :: 0 <= i < |entries| ==> Storable(entries[i])
    ensures ReadEntries(EntriesBytes(entries, all), before) == Ok(before + entries) <==> OwnUploads(entries, all)
    decreases |entries|
  {
    hide ReadEntries, EntryBytes, Opened, Sound, Storable, Distinct;
    if entries == [] {
      NothingToRead(before);
      assert before + entries == before;
    } else {
      hide AllSound, OwnUploads;
      var e, tail := entries[0], entries[1..];
      SoundTail(entries, all);
      OwnUploadsStep(entries, all);
      EntriesComeBackIff(tail, all, before + [e]);
      FirstEntryIff(e, Opened(all, e.attr), EntriesBytes(tail, all), before, tail);
      assert entries == [e] + tail;
    }
  }

  lemma {:induction false} ReadWrittenStrings(strings: seq<seq<byte>>, rest: seq<byte>, before: seq<seq<byte>>)
    requires forall i :: 0 <= i < |strings| ==> |strings[i]| < 0x8000_0000 && NUL !in strings[i]
    ensures ReadStrings(StringsBytes(strings) + rest, |strings|, before) == Some((before + strings, rest))
    decreases |strings|
  {
    hide ReadString, StringBytes;
    if strings == [] {
      assert StringsBytes(strings) + rest == rest && before + strings == before;
    } else {
      var tail := StringsBytes(strings[1..]) + rest;
      assert StringsBytes(strings) + rest == StringBytes(strings[0]) + tail;
      CStrOfNulFree(strings[0]);
      ReadWrittenString(strings[0], tail);
      ReadWrittenStrings(strings[1..], rest, before + [strings[0]]);
      assert before + [strings[0]] + strings[1..] == before + strings;
    }
  }

  ghost predicate PlainVariables(env: Environment) {
    forall i :: 0 <= i < VARIABLES ==> NUL !in Variables(env)[i]
  }

  /** What the round trip asks of the variables and of each entry. */
  ghost predicate SoundEnvironment(env: Environment) {
    && (forall i :: 0 <= i < VARIABLES ==> |Variables(env)[i]| < 0x8000_0000)
    && PlainVariables(env) && IsInt32(env.contentLength) && AllSound(env.entries, env.entries)
  }

  lemma VersionIsShort()
    ensures |VersionName()| == 7 && NUL !in VersionName() && CStr(VersionName()) == VersionName()
  {
  }

  lemma SavedIsRead(env: Environment)
    requires Saveable(env) && PlainVariables(env)
    ensures Restored(Saved(env)) ==
            match ReadEntries(EntriesBytes(env.entries, env.entries), [])
            case Failed(failure) => Failed(failure)
            case Ok(entries) => Ok(FromVariables(Variables(env), env.contentLength, entries))
  {
    VersionIsShort();
    var f3 := EntriesBytes(env.entries, env.entries);
    hide *;
    var f2 := IntBytes(env.contentLength) + f3;
    var f1 := StringsBytes(Variables(env)) + f2;
    SavedIs(env);
    ReadWrittenString(VersionName(), f1);
    SoundVariables(env);
    ReadWrittenStrings(Variables(env), f2, []);
    assert [] + Variables(env) == Variables(env);
    ReadWrittenInt(env.contentLength, f3);
    RestoredIs(Saved(env), f1, f2, f3, Variables(env), env.contentLength);
  }

  lemma SavedIs(env: Environment)
    requires Saveable(env)
    ensures |VersionName()| < 0x8000_0000
    ensures Saved(env) == StringBytes(VersionName()) + (StringsBytes(Variables(env)) + (IntBytes(env.contentLength) +
                          EntriesBytes(env.entries, env.entries)))
  {
    VersionIsShort();
    hide StringBytes, StringsBytes, IntBytes, EntriesBytes, Variables;
  }

  lemma SoundVariables(env: Environment)
    requires Saveable(env) && PlainVariables(env)
    ensures |Variables(env)| == VARIABLES && IsInt32(env.contentLength)
    ensures forall i :: 0 <= i < |Variables(env)| ==> |Variables(env)[i]| < 0x8000_0000 && NUL !in Variables(env)[i]
  {
  }

  lemma RestoredIs(f: seq<byte>, f1: seq<byte>, f2: seq<byte>, f3: seq<byte>, variables: seq<seq<byte>>, length: int)
    requires |variables| == VARIABLES && CStr(VersionName()) == VersionName()
    requires ReadString(f) == Some((VersionName(), f1)) && ReadStrings(f1, VARIABLES, []) == Some((variables, f2))
    requires ReadInt(f2) == Some((length, f3))
    ensures Restored(f) == match ReadEntries(f3, [])
                           case Failed(failure) => Failed(failure)
                           case Ok(entries) => Ok(FromVariables(variables, length, entries))
  {
    hide ReadString, ReadStrings, ReadInt, ReadEntries, FromVariables, VersionName, CStr;
  }

  lemma SoundIsSaveable(env: Environment)
    requires SoundEnvironment(env)
    ensures Saveable(env)
  {
  }

  /** The reader takes the variables in the order in which they were written. */
  lemma VariablesRoundTrip(env: Environment, entries: seq<Entry>)
    ensures |Variables(env)| == VARIABLES
    ensures FromVariables(Variables(env), env.contentLength, entries) == env <==> entries == env.entries
  {
  }

  /** Restoring a saved environment gives the same environment exactly when every
      entry is the one whose upload is found under its name. */
  lemma RestoreUndoesSaveIff(env: Environment)
    requires SoundEnvironment(env)
    ensures Saveable(env)
    ensures Restored(Saved(env)) == Ok(env) <==> OwnUploads(env.entries, env.entries)
  {
    SoundIsSaveable(env);
    assert AllSound(env.entries, env.entries);
    hide *;
    SavedIsRead(env);
    EntriesComeBackIff(env.entries, env.entries, []);
    assert [] + env.entries == env.entries;
    var r := ReadEntries(EntriesBytes(env.entries, env.entries), []);
    if r.Ok? {
      VariablesRoundTrip(env, r.value);
    }
  }

  /** Uploads that start alike must be left out there: with a namesake before it that
      is at most three bytes longer, the last entry of a list comes back although it
      was written with the namesake's upload. */
  lemma LongerNamesakeIsNotNoticed(a: Entry, b: Entry, more: seq<byte>)
    requires Sound(a) && Sound(b) && SameString(a.attr, b.attr) && a.upload.Some? && b.upload.Some?
    requires a.upload.value == b.upload.value + more && 0 < |more| < 4
    ensures !OwnUploads([a, b], [a, b])
    ensures ReadEntries(EntriesBytes([a, b], [a, b]), []) == Ok([a, b])
  {
    var list := [a, b];
    NamesakesOpenTheFirst(a, b);
    assert [a, b][1..] == [b] && [b][1..] == [];
    hide EntryBytes, Opened, ReadEntry;
    var tail := EntryBytes(b, a.upload) + [];
    assert EntriesBytes(list[1..][1..], list) == [];
    assert EntriesBytes(list[1..], list) == tail;
    assert EntriesBytes(list, list) == EntryBytes(a, a.upload) + tail;
    FirstEntryIff(a, a.upload, tail, [], [b]);
    LongerUploadIsCut(b, more, []);
    assert more + [] == more;
    ShortRestEnds(more, [a] + [b]);
    assert [] + ([a] + [b]) == [a, b] && [] + [a] + [b] == [a, b] && [] + [a] == [a];
    assert !(Opened(list, list[1].attr) == list[1].upload);
  }

  lemma NamesakesOpenTheFirst(a: Entry, b: Entry)
    requires SameString(a.attr, b.attr)
    ensures Opened([a, b], a.attr) == a.upload && Opened([a, b], b.attr) == a.upload
  {
  }

  /** Fewer bytes than an int has end the list. */
  lemma ShortRestEnds(junk: seq<byte>, before: seq<Entry>)
    requires |junk| < 4
    ensures ReadEntries(junk, before) == Ok(before)
  {
    assert ReadEntry(junk) == EndOfList;
  }

  /** Each entry has its own upload when no two share a name, and when there is no upload. */
  lemma DistinctNamesSuffice(entries: seq<Entry>)
    requires (forall i, j :: 0 <= i < j < |entries| ==> !SameString(entries[i].attr, entries[j].attr))
             || (forall i :: 0 <= i < |entries| ==> entries[i].upload.None?)
    ensures OwnUploads(entries, entries)
  {
    forall i | 0 <= i < |entries|
      ensures Opened(entries, entries[i].attr) == entries[i].upload
    {
      FirstMatch(entries, i, 0);
      assert entries[0..] == entries;
    }
  }

  lemma {:induction false} FirstMatch(entries: seq<Entry>, i: nat, k: nat)
    requires k <= i < |entries|
    ensures var m := Matches(entries[k..], entries[i].attr);
            && m != []
            && exists j :: k <= j <= i && m[0] == entries[j] && SameString(entries[j].attr, entries[i].attr)
    decreases i - k
  {
    MatchesStep(entries, k, entries[i].attr);
    if !SameString(entries[k].attr, entries[i].attr) {
      FirstMatch(entries, i, k + 1);
    }
  }

  /** A saved file begins with its version. */
  lemma SavedBeginsWithVersion(env: Environment)
    requires Saveable(env)
    ensures [7, 0, 0, 0] + Ascii("CGIC2.0") <= Saved(env)
  {
    VersionIsShort();
    assert VersionName() == Ascii("CGIC2.0") && IntBytes(7) == [7, 0, 0, 0];
    hide CStr, IntBytes, StringsBytes, EntriesBytes, Variables, VersionName;
    SavedIs(env);
  }

  /** A file of any other version is refused, whatever follows, and so is one in which
      the version is cut short. */
  lemma OtherVersionIsRefused(version: seq<byte>, rest: seq<byte>)
    requires |version| < 0x8000_0000 && CStr(version) != Ascii("CGIC2.0")
    ensures Restored(IntBytes(|version|) + version + rest) == Failed(EnvironmentWrongVersion)
  {
    hide *;
    VersionIs();
    SmallIsInt(|version|);
    var f := IntBytes(|version|) + version + rest;
    assert f == IntBytes(|version|) + (version + rest);
    ReadWrittenInt(|version|, version + rest);
    ReadStringIs(f, version, rest);
    RefusedIs(f, version, rest);
  }

  lemma VersionIs()
    ensures VersionName() == Ascii("CGIC2.0")
  {
  }

  lemma SmallIsInt(n: nat)
    requires n < 0x8000_0000
    ensures IsInt32(n)
  {
  }

  lemma RefusedIs(f: seq<byte>, version: seq<byte>, rest: seq<byte>)
    requires ReadString(f) == Some((version, rest)) && CStr(version) != VersionName()
    ensures Restored(f) == Failed(EnvironmentWrongVersion)
  {
    hide ReadString, ReadInt, ReadStrings, ReadEntries, CStr, VersionName;
  }

  lemma ShortFileIsAnError(f: seq<byte>)
    requires |f| < 4
    ensures Restored(f) == Failed(EnvironmentIO)
  {
  }

  // ----- the code

  /** A file open for writing. */
  class Writer {
    var bytes: seq<byte>

    constructor ()
      ensures bytes == []
    {
      bytes := [];
    }

    method WriteInt(i: int)
      requires IsInt32(i)
      modifies this
      ensures bytes == old(bytes) + IntBytes(i)
    {
      bytes := bytes + IntBytes(i);
    }

    method WriteString(s: seq<byte>)
      requires |s| < 0x8000_0000
      modifies this
      ensures bytes == old(bytes) + StringBytes(s)
    {
      WriteInt(|CStr(s)|);
      bytes := bytes + CStr(s);
    }

    /** Copies an upload in blocks of 1024 bytes. */
    method CopyUpload(content: seq<byte>)
      modifies this
      ensures bytes == old(bytes) + content
    {
      var done := 0;
      while done < |content|
        invariant done <= |content| && bytes == old(bytes) + content[..done]
      {
        var got := if |content| - done < 1024 then |content| - done else 1024;
        assert content[..done + got] == content[..done] + content[done..done + got];
        bytes := bytes + content[done..done + got];
        done := done + got;
      }
      assert content[..done] == content;
    }

    method WriteEntry(list: FormList, e: Entry)
      requires Storable(e)
      modifies this, list
      ensures bytes == old(bytes) + EntryBytes(e, Opened(list.entries, e.attr))
    {
      hide StringBytes, IntBytes, Matches;
      ghost var start := bytes;
      WriteString(e.attr);
      WriteString(e.value);
      WriteString(e.fileName);
      WriteString(e.contentType);
      WriteInt(e.valueLength);
      ghost var head := StringBytes(e.attr) + StringBytes(e.value) + StringBytes(e.fileName) +
                        StringBytes(e.contentType) + IntBytes(e.valueLength);
      assert bytes == start + head;
      var found := list.FindFirst(e.attr);
      if found.Some? && found.value.upload.Some? {
        WriteInt(1);
        CopyUpload(found.value.upload.value);
      } else {
        WriteInt(0);
      }
      assert bytes == start + (head + FileBytes(Opened(list.entries, e.attr)));
    }

    /** The string variables, one call after another. */
    method WriteStrings(strings: seq<seq<byte>>)
      requires forall i :: 0 <= i < |strings| ==> |strings[i]| < 0x8000_0000
      modifies this
      ensures bytes == old(bytes) + StringsBytes(strings)
    {
      hide StringBytes;
      assert strings[0..] == strings;
      for i := 0 to |strings|
        invariant bytes + StringsBytes(strings[i..]) == old(bytes) + StringsBytes(strings)
      {
        ghost var before, rest := bytes, StringsBytes(strings[i + 1..]);
        WriteString(strings[i]);
        assert strings[i..][1..] == strings[i + 1..];
        assert before + (StringBytes(strings[i]) + rest) == bytes + rest;
      }
      assert bytes + [] == bytes;
    }

    /** The loop over the entries. */
    method WriteEntries(list: FormList)
      requires forall i :: 0 <= i < |list.entries| ==> Storable(list.entries[i])
      modifies this, list
      ensures bytes == old(bytes) + EntriesBytes(list.entries, list.entries)
    {
      hide EntryBytes, Storable, Opened;
      var all := list.entries;
      assert all[0..] == all;
      for i := 0 to |all|
        invariant bytes + EntriesBytes(all[i..], all) == old(bytes) + EntriesBytes(all, all)
      {
        ghost var before, rest := bytes, EntriesBytes(all[i + 1..], all);
        WriteEntry(list, all[i]);
        assert all[i..][1..] == all[i + 1..];
        assert before + (EntryBytes(all[i], Opened(all, all[i].attr)) + rest) == bytes + rest;
      }
      assert bytes + [] == bytes;
    }
  }

  method WriteEnvironment(env: Environment, list: FormList) returns (file: seq<byte>)
    requires Saveable(env) && list.entries == env.entries
    modifies list
    ensures file == Saved(env)
  {
    hide StringBytes, StringsBytes, IntBytes, EntriesBytes, Variables;
    VersionIsShort();
    SavedIs(env);
    SaveableVariables(env);
    var out := new Writer();
    out.WriteString(VersionName());
    out.WriteStrings(Variables(env));
    out.WriteInt(env.contentLength);
    out.WriteEntries(list);
    file := out.bytes;
    assert [] + StringBytes(VersionName()) == StringBytes(VersionName());
  }

  lemma SaveableVariables(env: Environment)
    requires Saveable(env)
    ensures forall i :: 0 <= i < |Variables(env)| ==> |Variables(env)[i]| < 0x8000_0000
  {
  }

  /** A file open for reading. */
  class Reader {
    const bytes: seq<byte>
    var pos: nat

    ghost predicate Valid()
      reads this
    {
      pos <= |bytes|
    }

    ghost function Left(): seq<byte>
      requires Valid()
      reads this
    {
      bytes[pos..]
    }

    constructor (bytes: seq<byte>)
      ensures Valid() && Left() == bytes && this.bytes == bytes
    {
      this.bytes := bytes;
      pos := 0;
    }

    /** fread: fewer bytes come back only at the end of the file. */
    method Take(n: nat) returns (data: seq<byte>)
      requires Valid()
      modifies this
      ensures Valid() && old(Left()) == data + Left()
      ensures |data| == if n <= |old(Left())| then n else |old(Left())|
    {
      var end := if pos + n <= |bytes| then pos + n else |bytes|;
      data := bytes[pos..end];
      pos := end;
    }

    method ReadIntValue() returns (ok: bool, i: int)
      requires Valid()
      modifies this
      ensures Valid()
      ensures match ReadInt(old(Left()))
              case None => !ok
              case Some((v, rest)) => ok && i == v && Left() == rest
    {
      ghost var f := Left();
      var data := Take(4);
      ok := |data| == 4;
      i := if ok then IntOf(data) else 0;
      assert ok ==> f[..4] == data && f[4..] == Left();
    }

    method ReadStringValue() returns (ok: bool, s: seq<byte>)
      requires Valid()
      modifies this
      ensures Valid()
      ensures match ReadString(old(Left()))
              case None => !ok
              case Some((v, rest)) => ok && s == v && Left() == rest
    {
      hide ReadInt;
      s := [];
      var len;
      ok, len := ReadIntValue();
      if !ok || len < 0 {
        return false, [];
      }
      ghost var rest := Left();
      s := Take(len);
      ok := |s| == len;
      assert ok ==> rest[..len] == s && rest[len..] == Left();
    }

    /** Copies an upload in blocks of at most 1024 bytes. */
    method TakeUpload(len: int) returns (ok: bool, content: seq<byte>)
      requires Valid()
      modifies this
      ensures Valid()
      ensures match ReadUpload(old(Left()), 1, len)
              case None => !ok
              case Some((upload, rest)) => ok && upload == Some(content) && Left() == rest
    {
      content := [];
      ghost var f := Left();
      var left := len;
      while left > 0
        invariant Valid() && |content| <= |f| && content == f[..|content|] && Left() == f[|content|..]
        invariant if len > 0 then 0 <= left == len - |content| else left == len && content == []
      {
        var block := Take(if left > 1024 then 1024 else left);
        if |block| == 0 {
          return false, [];
        }
        Advance(f, |content|, block);
        content := content + block;
        left := left - |block|;
      }
      ok := true;
    }

    method ReadEntryValue() returns (r: EntryRead)
      requires Valid()
      modifies this
      ensures Valid()
      ensures match ReadEntry(old(Left()))
              case EndOfList => r == EndOfList
              case Bad(failure) => r == Bad(failure)
              case Got(e, rest) => r == Got(e, rest) && Left() == rest
    {
      hide ReadString, ReadInt, ReadUpload;
      var ok, attr, value, fileName, contentType, valueLength, flag;
      ok, attr := ReadStringValue();
      if !ok { return EndOfList; }
      ok, value := ReadStringValue();
      if !ok { return Bad(EnvironmentMemory); }
      ok, fileName := ReadStringValue();
      if !ok { return Bad(EnvironmentMemory); }
      ok, contentType := ReadStringValue();
      if !ok { return Bad(EnvironmentMemory); }
      ok, valueLength := ReadIntValue();
      if !ok { return Bad(EnvironmentMemory); }
      ok, flag := ReadIntValue();
      if !ok { return Bad(EnvironmentMemory); }
      var upload: Option<seq<byte>> := None;
      ghost var f6 := Left();
      if flag != 0 {
        var content;
        ok, content := TakeUpload(valueLength);
        UploadFlag(f6, flag, valueLength);
        if !ok { return Bad(EnvironmentIO); }
        upload := Some(content);
      } else {
        NoUploadFlag(f6, valueLength);
      }
      r := Got(Entry(attr, value, valueLength, fileName, contentType, upload), bytes[pos..]);
    }

    /** The string variables, one call after another. */
    method ReadVariables() returns (ok: bool, variables: seq<seq<byte>>)
      requires Valid()
      modifies this
      ensures Valid()
      ensures match ReadStrings(old(Left()), VARIABLES, [])
              case None => !ok
              case Some((strings, rest)) => ok && variables == strings && Left() == rest
    {
      hide ReadString, Left;
      variables := [];
      while |variables| < VARIABLES
        invariant Valid() && |variables| <= VARIABLES
        invariant ReadStrings(Left(), VARIABLES - |variables|, variables) == ReadStrings(old(Left()), VARIABLES, [])
      {
        var s;
        ok, s := ReadStringValue();
        if !ok {
          return;
        }
        variables := variables + [s];
      }
      ok := true;
    }

    /** The loop over the entries. */
    method ReadList() returns (r: Result<seq<Entry>>)
      requires Valid()
      modifies this
      ensures r == ReadEntries(old(Left()), [])
    {
      hide ReadEntry, Left;
      var entries: seq<Entry> := [];
      while true
        invariant Valid() && ReadEntries(Left(), entries) == ReadEntries(old(Left()), [])
        decreases |Left()|
      {
        var e := ReadEntryValue();
        match e {
          case EndOfList => return Ok(entries);
          case Bad(failure) => return Failed(failure);
          case Got(entry, _) => entries := entries + [entry];
        }
      }
    }
  }

  lemma Advance(f: seq<byte>, n: nat, block: seq<byte>)
    requires n <= |f| && block <= f[n..]
    ensures f[..n] + block == f[..n + |block|] && f[n..][|block|..] == f[n + |block|..]
  {
  }

  lemma UploadFlag(f: seq<byte>, flag: int, len: int)
    requires flag != 0
    ensures ReadUpload(f, flag, len) == ReadUpload(f, 1, len)
  {
  }

  lemma NoUploadFlag(f: seq<byte>, len: int)
    ensures ReadUpload(f, 0, len) == Some((None, f))
  {
  }

  method ReadEnvironment(file: seq<byte>) returns (r: Result<Environment>)
    ensures r == Restored(file)
  {
    hide ReadString, ReadInt, ReadStrings, ReadEntries, FromVariables, VersionName;
    var f := new Reader(file);
    var ok, version := f.ReadStringValue();
    if !ok {
      return Failed(EnvironmentIO);
    }
    if CStr(version) != VersionName() {
      return Failed(EnvironmentWrongVersion);
    }
    var variables;
    ok, variables := f.ReadVariables();
    if !ok {
      return Failed(EnvironmentIO);
    }
    var contentLength;
    ok, contentLength := f.ReadIntValue();
    if !ok {
      return Failed(EnvironmentIO);
    }
    var entries := f.ReadList();
    match entries {
      case Failed(failure) => r := Failed(failure);
      case Ok(list) => r := Ok(FromVariables(variables, contentLength, list));
    }
  }
}
