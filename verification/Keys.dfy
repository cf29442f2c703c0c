// The name of an archive within a destination: how agent/internal/backup/store.go makes it, what
// shared/validate/backup.go accepts, and where a local destination puts it.
module Keys {
  import opened Wrappers
  import opened Bytes
  import opened Numbers
  import opened Text
  import opened Parts
  import opened Paths
  import opened Segments
  import opened Disk

  /**** validate.BackupKey ****/

  datatype KeyError =
    NoKey | TooLong | Rooted | LeadingDash | BadCharacter | EmptySegment | DotSegment | NotNormal | OutsideRoot

  const MAX_KEY: nat := 512

  predicate KeyCharacter(c: char) {
    Allowed(c) || c == '.'
  }

  function SegmentsError(segments: seq<string>): Option<KeyError> {
    if segments == [] then None
    else if segments[0] == "" then Some(EmptySegment)
    else if segments[0] == "." || segments[0] == ".." then Some(DotSegment)
    else if exists i :: 0 <= i < |segments[0]| && !KeyCharacter(segments[0][i]) then Some(KeyError.BadCharacter)
    else SegmentsError(segments[1..])
  }

  function BackupKey(key: string): Option<KeyError> {
    if key == "" then Some(NoKey)
    else if Utf8Length(key) > MAX_KEY then Some(TooLong)
    else if key[0] == '/' then Some(Rooted)
    else if key[0] == '-' then Some(LeadingDash)
    else if '\\' in key || '\0' in key then Some(KeyError.BadCharacter)
    else
      var wrong := SegmentsError(Split(key, '/'));
      if wrong.Some? then wrong
      else if Clean(key) != key then Some(NotNormal)
      else None
  }

  ghost predicate KeySegment(s: string) {
    s != "" && s != "." && s != ".." && forall i :: 0 <= i < |s| ==> KeyCharacter(s[i])
  }

  ghost predicate KeySegments(segments: seq<string>) {
    forall i :: 0 <= i < |segments| ==> KeySegment(segments[i])
  }

  lemma {:induction false} SegmentsErrorNone(segments: seq<string>)
    ensures SegmentsError(segments).None? <==> KeySegments(segments)
    ensures SegmentsError(segments) != Some(NotNormal)
  {
    if segments != [] {
      SegmentsErrorNone(segments[1..]);
      assert KeySegments(segments) <==> KeySegment(segments[0]) && KeySegments(segments[1..]) by {
        assert segments == [segments[0]] + segments[1..];
      }
    }
  }

  lemma KeySegmentsAreProper(segments: seq<string>)
    requires KeySegments(segments)
    ensures Proper(segments)
  {
    forall i | 0 <= i < |segments| ensures ProperSegment(segments[i]) {
      assert KeySegment(segments[i]);
    }
  }

  lemma PlainCharacters(key: string)
    requires KeySegments(Split(key, '/'))
    ensures '\\' !in key && '\0' !in key
    ensures key != "" && key[0] != '/'
    ensures forall i :: 0 <= i < |key| ==> KeyCharacter(key[i]) || key[i] == '/'
  {
    hide Split, Join, KeySegment;
    JoinOfSplit(key, '/');
    JoinedCharacters(Split(key, '/'));
    assert !KeyCharacter('\\') && !KeyCharacter('\0');
  }

  lemma {:induction false} JoinedCharacters(segments: seq<string>)
    requires KeySegments(segments) && segments != []
    ensures var s := Join(segments, '/');
            s != "" && s[0] != '/' && forall i :: 0 <= i < |s| ==> KeyCharacter(s[i]) || s[i] == '/'
  {
    assert KeySegment(segments[0]);
    if |segments| > 1 {
      JoinedCharacters(segments[1..]);
    }
  }

  // What is accepted, exactly. The comparison with path.Clean at the end never refuses anything.
  lemma BackupKeyAccepts(key: string)
    ensures BackupKey(key).None? <==>
              key != "" && key[0] != '-' && Utf8Length(key) <= MAX_KEY && KeySegments(Split(key, '/'))
    ensures BackupKey(key) != Some(NotNormal)
  {
    hide Split, Utf8Length, CleanSegments, KeySegments;
    var segments := Split(key, '/');
    SegmentsErrorNone(segments);
    if KeySegments(segments) {
      KeySegmentsAreProper(segments);
      JoinOfSplit(key, '/');
      CleanOfProper(segments);
      PlainCharacters(key);
    }
  }

  /**** localStore.resolve ****/

  function ResolveKey(root: Path, key: string): Result<Path, KeyError> {
    var wrong := BackupKey(key);
    if wrong.Some? then Failure(wrong.value)
    else
      var target := CleanOnto(root, Split(key, '/'), true);
      if PathString(root) + "/" <= PathString(target) then Success(target) else Failure(OutsideRoot)
  }

  // Under any root but "/", an accepted key becomes the file at its own segments below the root, and
  // two keys never become one file. "/" itself takes no key at all.
  lemma KeyStaysUnderRoot(root: Path, key: string)
    requires Proper(root)
    ensures root != [] ==> (ResolveKey(root, key).Success? <==> BackupKey(key).None?)
    ensures root == [] ==> ResolveKey(root, key).Failure?
    ensures ResolveKey(root, key).Success? ==>
              ResolveKey(root, key).value == root + Split(key, '/') && root < ResolveKey(root, key).value
  {
    hide Split, BackupKey, PathString, CleanOnto, KeySegments;
    BackupKeyAccepts(key);
    if BackupKey(key).None? {
      var segments := Split(key, '/');
      KeySegmentsAreProper(segments);
      CleanOntoProper(root, segments, true);
      var target := root + segments;
      AtOrUnderIsPrefix(root, target);
      assert root < target;
    }
  }

  lemma KeysStayApart(root: Path, a: string, b: string)
    requires Proper(root) && ResolveKey(root, a).Success? && ResolveKey(root, b).Success? && a != b
    ensures ResolveKey(root, a).value != ResolveKey(root, b).value
  {
    hide Split, ResolveKey;
    KeyStaysUnderRoot(root, a);
    KeyStaysUnderRoot(root, b);
    JoinOfSplit(a, '/');
    JoinOfSplit(b, '/');
    assert (root + Split(a, '/'))[|root|..] == Split(a, '/');
    assert (root + Split(b, '/'))[|root|..] == Split(b, '/');
  }

  /**** Key ****/

  // The moment of a backup, in UTC.
  datatype Stamp = Stamp(year: nat, month: nat, day: nat, hour: nat, minute: nat, second: nat)

  // Format("2006-01-02") and Format("150405").
  function DateText(at: Stamp): string {
    Padded(at.year, 4) + "-" + Padded(at.month, 2) + "-" + Padded(at.day, 2)
  }

  function TimeText(at: Stamp): string {
    Padded(at.hour, 2) + Padded(at.minute, 2) + Padded(at.second, 2)
  }

  // path.Join.
  function JoinPath(parts: seq<string>): string {
    if parts == [] then ""
    else if parts[0] == "" then JoinPath(parts[1..])
    else Clean(Join(parts, '/'))
  }

  function FileName(at: Stamp, id: string): string {
    TimeText(at) + "-" + Segment(id) + ".tar.gz"
  }

  // The parts of a key after its prefix.
  function KeyParts(kind: string, subject: string, at: Stamp, id: string): seq<string> {
    [Segment(kind)] + (if subject != "" then [Segment(subject)] else []) + [DateText(at), FileName(at, id)]
  }

  function Key(prefix: string, kind: string, subject: string, at: Stamp, id: string): string {
    var trimmed := TrimSlashes(prefix);
    JoinPath((if trimmed != "" then [trimmed] else []) + KeyParts(kind, subject, at, id))
  }

  predicate FourDigits(at: Stamp) {
    at.year < 10000 && at.month < 100 && at.day < 100 && at.hour < 100 && at.minute < 100 && at.second < 100
  }

  lemma StampDigits(at: Stamp)
    requires FourDigits(at)
    ensures |DateText(at)| == 10 && |TimeText(at)| == 6
    ensures forall i :: 0 <= i < 10 ==> KeyCharacter(DateText(at)[i]) && DateText(at)[i] != '.'
    ensures forall i :: 0 <= i < 6 ==> KeyCharacter(TimeText(at)[i]) && TimeText(at)[i] != '-'
  {
    hide Padded;
    StampFields(at);
  }

  lemma StampFields(at: Stamp)
    requires FourDigits(at)
    ensures forall n, w :: (n, w) in {(at.year, 4), (at.month, 2), (at.day, 2), (at.hour, 2), (at.minute, 2), (at.second, 2)} ==>
              && |Padded(n, w)| == w && Value(Padded(n, w)) == n
              && forall i :: 0 <= i < w ==> '0' <= Padded(n, w)[i] <= '9'
  {
    hide Padded, Value;
    TwoDigits(at.month);
    TwoDigits(at.day);
    TwoDigits(at.hour);
    TwoDigits(at.minute);
    TwoDigits(at.second);
    PaddedReadsBack(at.year, 4);
    assert Pow10(4) == 10 * Pow10(3) && Pow10(3) == 10 * Pow10(2) && Pow10(2) == 10 * Pow10(1) && Pow10(1) == 10 * Pow10(0);
    PaddedWidth(at.year, 4);
  }

  lemma TwoDigits(n: nat)
    requires n < 100
    ensures |Padded(n, 2)| == 2 && Digits(Padded(n, 2)) && Value(Padded(n, 2)) == n
  {
    hide Padded, Value;
    PaddedReadsBack(n, 2);
    assert Pow10(2) == 10 * Pow10(1) && Pow10(1) == 10 * Pow10(0);
    PaddedWidth(n, 2);
  }

  // The date in a key is the year, the month and the day, and the time the hour, the minute and the second.
  lemma StampReads(at: Stamp)
    requires FourDigits(at)
    ensures var d := DateText(at);
            |d| == 10 && d[4] == '-' && d[7] == '-' && Value(d[..4]) == at.year && Value(d[5..7]) == at.month && Value(d[8..]) == at.day
    ensures var t := TimeText(at);
            |t| == 6 && Value(t[..2]) == at.hour && Value(t[2..4]) == at.minute && Value(t[4..]) == at.second
  {
    hide Padded, Value;
    StampFields(at);
    var d, t := DateText(at), TimeText(at);
    assert d[..4] == Padded(at.year, 4) && d[5..7] == Padded(at.month, 2) && d[8..] == Padded(at.day, 2);
    assert t[..2] == Padded(at.hour, 2) && t[2..4] == Padded(at.minute, 2) && t[4..] == Padded(at.second, 2);
  }

  lemma StampReadsBack(a: Stamp, b: Stamp)
    requires FourDigits(a) && FourDigits(b) && DateText(a) == DateText(b) && TimeText(a) == TimeText(b)
    ensures a == b
  {
    hide Value, DateText, TimeText;
    StampReads(a);
    StampReads(b);
  }

  lemma StableIsKeySegment(s: string)
    requires Stable(s)
    ensures KeySegment(s) && s[0] != '-'
  {
  }

  lemma FileNameShape(at: Stamp, id: string)
    requires FourDigits(at)
    ensures KeySegment(FileName(at, id)) && |FileName(at, id)| == 7 + |Segment(id)| + 7
    ensures |Segment(id)| <= 100
    ensures FileName(at, id)[..6] == TimeText(at)
    ensures FileName(at, id)[7..7 + |Segment(id)|] == Segment(id)
  {
    hide Segment, TimeText, Shaped;
    StampDigits(at);
    SegmentIsStable(id);
    StableIsKeySegment(Segment(id));
    var name := FileName(at, id);
    var tail := ".tar.gz";
    assert forall i :: 0 <= i < |tail| ==> KeyCharacter(tail[i]);
    assert forall i :: 0 <= i < 6 ==> name[i] == TimeText(at)[i];
    assert name[6] == '-';
    assert forall i :: 0 <= i < |Segment(id)| ==> name[7 + i] == Segment(id)[i];
  }

  lemma DateIsSegment(at: Stamp)
    requires FourDigits(at)
    ensures KeySegment(DateText(at)) && |DateText(at)| == 10
  {
    hide DateText, Padded;
    StampDigits(at);
  }

  // Parts that make an acceptable key, with room left for a prefix.
  ghost predicate Fitting(parts: seq<string>) {
    && parts != [] && KeySegments(parts) && |Join(parts, '/')| <= 327
    && parts[0] != "" && parts[0][0] != '-'
  }

  lemma PartsShape(kind: string, subject: string, at: Stamp, id: string)
    requires FourDigits(at)
    ensures Fitting(KeyParts(kind, subject, at, id))
  {
    hide *;
    SegmentForKey(kind);
    FileNameShape(at, id);
    DateIsSegment(at);
    if subject != "" {
      SegmentForKey(subject);
      FourFit(Segment(kind), Segment(subject), DateText(at), FileName(at, id));
      PartsWithSubject(kind, subject, at, id);
    } else {
      ThreeFit(Segment(kind), DateText(at), FileName(at, id));
      PartsAlone(kind, at, id);
    }
  }

  lemma PartsWithSubject(kind: string, subject: string, at: Stamp, id: string)
    requires subject != ""
    ensures KeyParts(kind, subject, at, id) == [Segment(kind), Segment(subject), DateText(at), FileName(at, id)]
  {
    hide Segment, DateText, FileName;
  }

  lemma PartsAlone(kind: string, at: Stamp, id: string)
    ensures KeyParts(kind, "", at, id) == [Segment(kind), DateText(at), FileName(at, id)]
  {
    hide Segment, DateText, FileName;
  }

  lemma ThreeFit(a: string, b: string, c: string)
    requires KeySegment(a) && KeySegment(b) && KeySegment(c) && a != "" && a[0] != '-' && |a| + |b| + |c| <= 325
    ensures Fitting([a, b, c])
  {
    hide KeySegment;
    JoinOfThree(a, b, c);
  }

  lemma FourFit(a: string, b: string, c: string, d: string)
    requires KeySegment(a) && KeySegment(b) && KeySegment(c) && KeySegment(d)
    requires a != "" && a[0] != '-' && |a| + |b| + |c| + |d| <= 324
    ensures Fitting([a, b, c, d])
  {
    hide KeySegment;
    JoinOfFour(a, b, c, d);
  }

  lemma SegmentForKey(value: string)
    ensures var s := Segment(value); KeySegment(s) && s != "" && s[0] != '-' && |s| <= 100
  {
    hide Segment, Shaped, KeySegment;
    SegmentIsStable(value);
    StableIsKeySegment(Segment(value));
  }

  lemma JoinOfTwo(a: string, b: string)
    ensures |Join([a, b], '/')| == |a| + |b| + 1
  {
    assert [a, b][1..] == [b];
  }

  lemma JoinOfThree(a: string, b: string, c: string)
    requires KeySegment(a) && KeySegment(b) && KeySegment(c)
    ensures KeySegments([a, b, c]) && |Join([a, b, c], '/')| == |a| + |b| + |c| + 2
  {
    hide KeySegment;
    assert [a, b, c][1..] == [b, c];
    JoinOfTwo(b, c);
  }

  lemma JoinOfFour(a: string, b: string, c: string, d: string)
    requires KeySegment(a) && KeySegment(b) && KeySegment(c) && KeySegment(d)
    ensures KeySegments([a, b, c, d]) && |Join([a, b, c, d], '/')| == |a| + |b| + |c| + |d| + 3
  {
    hide KeySegment;
    JoinOfThree(b, c, d);
    assert [a, b, c, d][1..] == [b, c, d];
  }

  lemma {:induction false} AsciiLength(s: string)
    requires forall i :: 0 <= i < |s| ==> s[i] < '\U{80}'
    ensures Utf8Length(s) == |s|
  {
    if s != "" {
      AsciiLength(s[1..]);
    }
  }

  // The longest prefix that always leaves room for the rest.
  const MAX_PREFIX: nat := 184

  // Whatever the kind, the subject and the id, the key made of them is accepted and reads back as its
  // parts: with no prefix, or with one that is itself an acceptable key short enough to leave room.
  lemma KeyIsAccepted(prefix: string, kind: string, subject: string, at: Stamp, id: string)
    requires FourDigits(at)
    requires var p := TrimSlashes(prefix); p == "" || (BackupKey(p).None? && |p| <= MAX_PREFIX)
    ensures BackupKey(Key(prefix, kind, subject, at, id)).None?
    ensures var p := TrimSlashes(prefix);
            Split(Key(prefix, kind, subject, at, id), '/')
            == (if p == "" then [] else Split(p, '/')) + KeyParts(kind, subject, at, id)
  {
    hide Split, Utf8Length, BackupKey, KeySegments, Clean, CleanSegments, KeyParts, Join, TrimSlashes;
    var p, parts := TrimSlashes(prefix), KeyParts(kind, subject, at, id);
    PartsShape(kind, subject, at, id);
    KeyOfParts(p, parts);
    var all := (if p == "" then [] else Split(p, '/')) + parts;
    var key := Join(all, '/');
    KeySegmentsAreProper(all);
    ProperIsFree(all);
    CleanOfProper(all);
    SplitOfJoin(all, '/');
    PlainCharacters(key);
    AsciiLength(key);
    BackupKeyAccepts(key);
    assert Key(prefix, kind, subject, at, id) == key by {
      JoinPathOf(p, parts);
    }
  }

  lemma JoinPathOf(p: string, parts: seq<string>)
    requires parts != [] && parts[0] != ""
    ensures p == "" ==> JoinPath([] + parts) == Clean(Join([] + parts, '/'))
    ensures p != "" ==> JoinPath([p] + parts) == Clean(Join((if p == "" then [] else Split(p, '/')) + parts, '/'))
  {
    hide Split, Clean;
    if p != "" {
      JoinOfSplit(p, '/');
      JoinAppend(Split(p, '/'), parts, '/');
      assert ([p] + parts)[1..] == parts;
    }
  }

  lemma KeyOfParts(p: string, parts: seq<string>)
    requires Fitting(parts)
    requires p == "" || (BackupKey(p).None? && |p| <= MAX_PREFIX)
    ensures var all := (if p == "" then [] else Split(p, '/')) + parts; var key := Join(all, '/');
            KeySegments(all) && |key| <= MAX_KEY && key != "" && key[0] != '-'
  {
    hide Split, BackupKey, Utf8Length, KeySegment;
    if p == "" {
      assert [] + parts == parts;
      JoinStartsWithFirst(parts);
    } else {
      BackupKeyAccepts(p);
      PlainCharacters(p);
      AsciiLength(p);
      JoinOfSplit(p, '/');
      JoinAppend(Split(p, '/'), parts, '/');
    }
  }

  // Two keys are the same only if everything they were made of is.
  lemma KeysTellBackupsApart(kind: string, subject: string, at: Stamp, id: string,
                             kind': string, subject': string, at': Stamp, id': string)
    requires FourDigits(at) && FourDigits(at')
    requires Key("", kind, subject, at, id) == Key("", kind', subject', at', id')
    ensures Segment(kind) == Segment(kind') && at == at' && Segment(id) == Segment(id')
    ensures subject == "" <==> subject' == ""
    ensures subject != "" ==> Segment(subject) == Segment(subject')
  {
    hide *;
    EmptyPrefix();
    KeyIsAccepted("", kind, subject, at, id);
    KeyIsAccepted("", kind', subject', at', id');
    var a, b := KeyParts(kind, subject, at, id), KeyParts(kind', subject', at', id');
    NothingBefore(a);
    NothingBefore(b);
    PartsTell(kind, subject, at, id, kind', subject', at', id');
    FileNameShape(at, id);
    FileNameShape(at', id');
    StampReadsBack(at, at');
  }

  lemma EmptyPrefix()
    ensures TrimSlashes("") == ""
  {
  }

  lemma NothingBefore<T>(parts: seq<T>)
    ensures [] + parts == parts
  {
  }

  lemma PartsTell(kind: string, subject: string, at: Stamp, id: string,
                  kind': string, subject': string, at': Stamp, id': string)
    requires KeyParts(kind, subject, at, id) == KeyParts(kind', subject', at', id')
    ensures Segment(kind) == Segment(kind') && DateText(at) == DateText(at') && FileName(at, id) == FileName(at', id')
    ensures subject == "" <==> subject' == ""
    ensures subject != "" ==> Segment(subject) == Segment(subject')
  {
    hide Segment, DateText, FileName;
    var a, b := KeyParts(kind, subject, at, id), KeyParts(kind', subject', at', id');
    assert a[0] == Segment(kind) && b[0] == Segment(kind');
    assert a[|a| - 2] == DateText(at) && b[|b| - 2] == DateText(at');
    assert a[|a| - 1] == FileName(at, id) && b[|b| - 1] == FileName(at', id');
    assert |a| == (if subject != "" then 4 else 3) && |b| == (if subject' != "" then 4 else 3);
    assert subject != "" ==> a[1] == Segment(subject);
    assert subject' != "" ==> b[1] == Segment(subject');
  }

  // A key read from its end: the time of day and the id in the name of the archive, the day before it, then the
  // subject if there is one, and the kind; before them the prefix.
  lemma KeyReads(prefix: string, kind: string, subject: string, at: Stamp, id: string)
    requires FourDigits(at)
    requires var p := TrimSlashes(prefix); p == "" || (BackupKey(p).None? && |p| <= MAX_PREFIX)
    ensures var read := Split(Key(prefix, kind, subject, at, id), '/');
            var n, before := |read|, if TrimSlashes(prefix) == "" then [] else Split(TrimSlashes(prefix), '/');
            && n == |before| + (if subject == "" then 3 else 4) && before <= read
            && read[n - 1] == TimeText(at) + "-" + Segment(id) + ".tar.gz" && read[n - 2] == DateText(at)
            && (if subject == "" then read[n - 3] == Segment(kind)
                else read[n - 3] == Segment(subject) && read[n - 4] == Segment(kind))
  {
    hide Split, BackupKey, Key, KeyParts, Segment, TimeText, DateText, TrimSlashes;
    KeyIsAccepted(prefix, kind, subject, at, id);
    if subject == "" {
      PartsAlone(kind, at, id);
    } else {
      PartsWithSubject(kind, subject, at, id);
    }
  }

  // A key that is refused is told the reason: each is true of it.
  lemma RefusalIsTrue(key: string)
    requires BackupKey(key).Some?
    ensures var e, segments := BackupKey(key).value, Split(key, '/');
            && (e.NoKey? <==> key == "")
            && (e.TooLong? <==> key != "" && Utf8Length(key) > MAX_KEY)
            && (e.Rooted? ==> key[0] == '/') && (e.LeadingDash? ==> key[0] == '-')
            && (e.BadCharacter? ==> exists i :: 0 <= i < |key| && key[i] != '/' && !KeyCharacter(key[i]))
            && (e.EmptySegment? ==> "" in segments) && (e.DotSegment? ==> "." in segments || ".." in segments)
            && !e.NotNormal? && !e.OutsideRoot?
  {
    hide Split, Utf8Length, Clean, KeySegments;
    BackupKeyAccepts(key);
    var segments := Split(key, '/');
    SegmentsRefusal(segments);
    SplitIsFree(key, '/');
    JoinOfSplit(key, '/');
    if SegmentsError(segments) == Some(KeyError.BadCharacter) {
      BadIsAmong(segments);
    }
    if '\\' in key || '\0' in key {
      var c := if '\\' in key then '\\' else '\0';
      var i :| 0 <= i < |key| && key[i] == c;
    }
  }

  lemma {:induction false} SegmentsRefusal(segments: seq<string>)
    ensures SegmentsError(segments) == Some(EmptySegment) ==> "" in segments
    ensures SegmentsError(segments) == Some(DotSegment) ==> "." in segments || ".." in segments
    ensures SegmentsError(segments).Some? ==> SegmentsError(segments).value in {EmptySegment, DotSegment, KeyError.BadCharacter}
    ensures SegmentsError(segments) == Some(KeyError.BadCharacter) ==>
              exists k, i :: 0 <= k < |segments| && 0 <= i < |segments[k]| && !KeyCharacter(segments[k][i])
  {
    hide KeyCharacter;
    if segments != [] {
      SegmentsRefusal(segments[1..]);
      assert forall k :: 0 <= k < |segments[1..]| ==> segments[1..][k] == segments[k + 1];
    }
  }

  lemma {:induction false} InJoined(segments: seq<string>, k: nat, c: char)
    requires k < |segments| && c in segments[k]
    ensures c in Join(segments, '/')
  {
    if |segments| > 1 && k > 0 {
      InJoined(segments[1..], k - 1, c);
    }
  }

  lemma BadIsAmong(segments: seq<string>)
    requires Free(segments, '/')
    requires exists k, i :: 0 <= k < |segments| && 0 <= i < |segments[k]| && !KeyCharacter(segments[k][i])
    ensures var key := Join(segments, '/'); exists i :: 0 <= i < |key| && key[i] != '/' && !KeyCharacter(key[i])
  {
    hide Join, KeyCharacter;
    var k, i :| 0 <= k < |segments| && 0 <= i < |segments[k]| && !KeyCharacter(segments[k][i]);
    var c := segments[k][i];
    InJoined(segments, k, c);
    var key := Join(segments, '/');
    var j :| 0 <= j < |key| && key[j] == c;
    assert c in segments[k];
  }
}
