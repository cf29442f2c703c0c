// What a field of a schedule means: lists of stars, values and ranges with steps, as they are written
// (shared/validate/cron.go).
module CronMeanings {
  import opened Wrappers
  import opened Bytes
  import opened Numbers
  import opened Parts
  import opened CronFields
  import opened CronSchedule

  /**** Fields as they are meant ****/

  // A value by its number, or by one of the field's names in letters of either case.
  datatype Term = Number(n: nat) | Named(word: string)

  datatype Span = Star | One(term: Term) | FromTo(first: Term, last: Term)

  // A part of a list, with or without a step.
  datatype Part = Part(span: Span, step: Option<nat>)

  function TermText(t: Term): string {
    match t
    case Number(n) => Decimal(n)
    case Named(word) => word
  }

  function SpanText(s: Span): string {
    match s
    case Star => "*"
    case One(t) => TermText(t)
    case FromTo(a, b) => TermText(a) + "-" + TermText(b)
  }

  function PartText(p: Part): string {
    if p.step.None? then SpanText(p.span) else SpanText(p.span) + "/" + Decimal(p.step.value)
  }

  function Texts(parts: seq<Part>): seq<string> {
    if parts == [] then [] else [PartText(parts[0])] + Texts(parts[1..])
  }

  function FieldText(parts: seq<Part>): string {
    Join(Texts(parts), ',')
  }

  function TermValue(t: Term, f: Field): nat
    requires t.Named? ==> Lower(t.word) in f.names
  {
    match t
    case Number(n) => n
    case Named(word) => f.names[Lower(word)]
  }

  // A name is one the field has.
  predicate Known(t: Term, f: Field) {
    t.Named? ==> Lower(t.word) in f.names
  }

  predicate KnownSpan(s: Span, f: Field) {
    match s
    case Star => true
    case One(t) => Known(t, f)
    case FromTo(a, b) => Known(a, f) && Known(b, f)
  }

  // Within the field's bounds, in order, with a step from one to the largest value.
  predicate Sound(p: Part, f: Field)
    requires KnownSpan(p.span, f)
  {
    && (p.step.Some? ==> 1 <= p.step.value <= f.max)
    && match p.span
       case Star => true
       case One(t) => f.min <= TermValue(t, f) <= f.max
       case FromTo(a, b) => f.min <= TermValue(a, f) <= TermValue(b, f) <= f.max
  }

  // The values a part stands for: from the first on, a step at a time, up to the last.
  ghost predicate Means(p: Part, v: int, f: Field)
    requires KnownSpan(p.span, f)
  {
    var step := if p.step.Some? then p.step.value else 1;
    match p.span
    case Star => v <= f.max && OnStep(v, f.min, step)
    case One(t) => v == TermValue(t, f)
    case FromTo(a, b) => v <= TermValue(b, f) && OnStep(v, TermValue(a, f), step)
  }

  ghost predicate OnStep(v: int, first: int, step: int) {
    exists k: nat :: Stepped(first, k, step) == v
  }

  function Stepped(first: int, k: nat, step: int): int {
    first + k * step
  }

  // A field whose names are words of small letters and whose values are small.
  ghost predicate Usual(f: Field) {
    && Sensible(f) && f.max < 1000
    && forall name :: name in f.names ==> SmallWord(name)
  }

  predicate SmallWord(s: string) {
    s != "" && forall i :: 0 <= i < |s| ==> 'a' <= s[i] <= 'z'
  }

  lemma FieldsAreUsual()
    ensures Usual(MINUTE) && Usual(HOUR) && Usual(DAY_OF_MONTH) && Usual(MONTH) && Usual(DAY_OF_WEEK)
  {
    hide SmallWord, MONTH, DAY_OF_WEEK;
    FieldsAreSensible();
    MonthsAreSmall();
    DaysAreSmall();
  }

  lemma MonthsAreSmall()
    ensures MONTH.max < 1000 && forall name :: name in MONTH.names ==> SmallWord(name)
  {
  }

  lemma DaysAreSmall()
    ensures DAY_OF_WEEK.max < 1000 && forall name :: name in DAY_OF_WEEK.names ==> SmallWord(name)
  {
  }

  const MONTH_WORDS: seq<string> := ["jan", "feb", "mar", "apr", "may", "jun", "jul", "aug", "sep", "oct", "nov", "dec"]
  const DAY_WORDS: seq<string> := ["sun", "mon", "tue", "wed", "thu", "fri", "sat"]

  // The names of the months stand for 1 to 12 and those of the days for 0 to 6, from Sunday on, and no other
  // field has names.
  lemma NamesInOrder()
    ensures forall i :: 0 <= i < 12 ==> MONTH_WORDS[i] in MONTH.names && MONTH.names[MONTH_WORDS[i]] == i + 1
    ensures forall i :: 0 <= i < 7 ==> DAY_WORDS[i] in DAY_OF_WEEK.names && DAY_OF_WEEK.names[DAY_WORDS[i]] == i
    ensures forall name :: name in MONTH.names ==> name in MONTH_WORDS
    ensures forall name :: name in DAY_OF_WEEK.names ==> name in DAY_WORDS
    ensures MINUTE.names == HOUR.names == DAY_OF_MONTH.names == map[]
  {
  }

  /**** Reading what was written ****/

  // None of the characters that separate.
  predicate Simple(s: string) {
    '/' !in s && '-' !in s && ',' !in s && '*' !in s && s != ""
  }

  lemma DecimalIsSimple(n: nat)
    ensures Simple(Decimal(n)) && Digits(Decimal(n)) && Value(Decimal(n)) == n
  {
    hide Padded;
    PaddedReadsBack(n, 1);
  }

  lemma NamedIsSimple(word: string, f: Field)
    requires Usual(f) && Lower(word) in f.names
    ensures Simple(word)
  {
    assert SmallWord(Lower(word));
    forall i | 0 <= i < |word| ensures word[i] !in "/-,*" {
      assert Lower(word)[i] == LowerOf(word[i]);
    }
  }

  lemma TermIsSimple(t: Term, f: Field)
    requires Usual(f) && Known(t, f)
    ensures Simple(TermText(t))
  {
    hide Simple, Usual, Lower, Decimal;
    match t
    case Number(n) => DecimalIsSimple(n);
    case Named(word) => NamedIsSimple(word, f);
  }

  lemma CutBefore(a: string, mark: string, b: string)
    requires |mark| == 1 && mark[0] !in a
    ensures CutAt(a + mark + b, mark) == (a, Some(b))
  {
    hide Find;
    var s := a + mark + b;
    assert s[|a|..] == mark + b;
    forall i | 0 <= i < |a| ensures !(mark <= s[i..]) {
      assert s[i..][0] == a[i];
    }
    FindAt(s, mark, |a|);
    assert s[..|a|] == a && s[|a| + 1..] == b;
  }

  lemma CutNone(a: string, mark: string)
    requires |mark| == 1 && mark[0] !in a
    ensures CutAt(a, mark) == (a, None)
  {
    hide Find;
    forall i | 0 <= i <= |a| ensures !(mark <= a[i..]) {
      if i < |a| {
        assert a[i..][0] == a[i];
      }
    }
    FindNone(a, mark);
  }

  lemma AtoiOfDigits(s: string)
    requires Digits(s) && 0 <= Value(s)
    ensures Atoi(s) == if Value(s) <= MAX_INT64 then Some(Value(s)) else None
  {
    hide Value;
    assert '0' <= s[0] <= '9';
  }

  lemma DigitsAreNoName(s: string, f: Field)
    requires Usual(f) && Digits(s)
    ensures Lower(s) !in f.names
  {
    assert '0' <= s[0] <= '9' && Lower(s)[0] == LowerOf(s[0]);
    forall name | name in f.names ensures name != Lower(s) {
      assert SmallWord(name);
    }
  }

  // A value that is written is accepted when it is within the field's bounds, and is read as itself.
  lemma TermReads(t: Term, f: Field)
    requires Usual(f) && Known(t, f)
    ensures FieldValue(TermText(t), f) <==> f.min <= TermValue(t, f) <= f.max
    ensures Resolve(TermText(t), f) == if f.min <= TermValue(t, f) <= f.max then Some(TermValue(t, f)) else None
  {
    hide Lower, Atoi, Decimal, Digits, Value;
    TermIsSimple(t, f);
    match t
    case Number(n) =>
      DecimalIsSimple(n);
      AtoiOfDigits(Decimal(n));
      DigitsAreNoName(Decimal(n), f);
    case Named(word) =>
  }

  lemma SpanHasNoSlash(s: Span, f: Field)
    requires Usual(f) && KnownSpan(s, f)
    ensures '/' !in SpanText(s) && ',' !in SpanText(s)
    ensures s.FromTo? ==> CutAt(SpanText(s), "-") == (TermText(s.first), Some(TermText(s.last))) && SpanText(s) != "*"
    ensures s.One? ==> CutAt(SpanText(s), "-") == (TermText(s.term), None) && SpanText(s) != "*"
  {
    hide Usual, Known, TermText, CutAt;
    match s
    case Star =>
    case One(t) =>
      TermIsSimple(t, f);
      CutNone(TermText(t), "-");
      assert '*' !in TermText(t);
    case FromTo(a, b) =>
      TermIsSimple(a, f);
      TermIsSimple(b, f);
      CutBefore(TermText(a), "-", TermText(b));
      assert SpanText(s)[|TermText(a)|] == '-';
  }

  lemma PartCuts(p: Part, f: Field)
    requires Usual(f) && KnownSpan(p.span, f)
    ensures CutAt(PartText(p), "/") == (SpanText(p.span), if p.step.None? then None else Some(Decimal(p.step.value)))
    ensures ',' !in PartText(p)
  {
    hide Usual, KnownSpan, SpanText, CutAt, Decimal;
    SpanHasNoSlash(p.span, f);
    if p.step.None? {
      CutNone(SpanText(p.span), "/");
    } else {
      DecimalIsSimple(p.step.value);
      CutBefore(SpanText(p.span), "/", Decimal(p.step.value));
    }
  }

  lemma StepReads(p: Part, f: Field)
    requires Usual(f)
    ensures CheckStep(if p.step.None? then None else Some(Decimal(p.step.value)), f)
       <==> (p.step.Some? ==> 1 <= p.step.value <= f.max)
    ensures p.step.Some? && p.step.value <= f.max ==> Atoi(Decimal(p.step.value)) == Some(p.step.value)
  {
    hide Atoi, Decimal, Digits, Value;
    if p.step.Some? {
      DecimalIsSimple(p.step.value);
      AtoiOfDigits(Decimal(p.step.value));
    }
  }

  lemma StarText()
    ensures SpanText(Star) == "*"
  {
  }

  // A part that is written is accepted exactly when it is sound.
  lemma PartAccepted(p: Part, f: Field)
    requires Usual(f) && KnownSpan(p.span, f)
    ensures CheckRange(PartText(p), f) <==> Sound(p, f)
  {
    hide Usual, TermText, CutAt, Decimal, FieldValue, Resolve, PartText, SpanText, CheckStep, TermValue, Known;
    PartCuts(p, f);
    SpanHasNoSlash(p.span, f);
    StepReads(p, f);
    match p.span
    case Star => StarText();
    case One(t) => TermReads(t, f);
    case FromTo(a, b) =>
      TermReads(a, f);
      TermReads(b, f);
  }

  lemma OnStepExactly(v: int, first: int, step: int)
    requires step >= 1
    ensures OnStep(v, first, step) <==> first <= v && (v - first) % step == 0
  {
    if OnStep(v, first, step) {
      var k: nat :| Stepped(first, k, step) == v;
      Multiple(k, step);
    }
    if first <= v && (v - first) % step == 0 {
      var k := (v - first) / step;
      Quotient(v - first, step);
      assert Stepped(first, k, step) == v;
    }
  }

  lemma Multiple(k: nat, step: int)
    requires step >= 1
    ensures k * step >= 0 && (k * step) % step == 0
  {
    DivModUnique(k * step, step, k, 0);
  }

  lemma Quotient(n: int, step: int)
    requires step >= 1 && n >= 0 && n % step == 0
    ensures n / step >= 0 && (n / step) * step == n
  {
  }

  // A sound part matches exactly the values it stands for.
  lemma PartMatches(p: Part, v: int, f: Field)
    requires Usual(f) && KnownSpan(p.span, f) && Sound(p, f)
    ensures RangeMatches(PartText(p), v, f) <==> Means(p, v, f)
  {
    hide Usual, TermText, CutAt, Decimal, FieldValue, Resolve, PartText, SpanText, OnStep, Atoi, Lower;
    PartCuts(p, f);
    SpanHasNoSlash(p.span, f);
    StepReads(p, f);
    var step := if p.step.Some? then p.step.value else 1;
    match p.span
    case Star =>
      StarText();
      OnStepExactly(v, f.min, step);
    case One(t) =>
      TermReads(t, f);
    case FromTo(a, b) =>
      TermReads(a, f);
      TermReads(b, f);
      OnStepExactly(v, TermValue(a, f), step);
  }

  /**** A whole field ****/

  ghost predicate AllKnown(parts: seq<Part>, f: Field) {
    forall i :: 0 <= i < |parts| ==> KnownSpan(parts[i].span, f)
  }

  lemma {:induction false} TextAt(parts: seq<Part>, f: Field)
    requires Usual(f) && AllKnown(parts, f)
    ensures |Texts(parts)| == |parts| && Free(Texts(parts), ',')
    ensures forall i :: 0 <= i < |parts| ==> Texts(parts)[i] == PartText(parts[i])
  {
    hide Usual, KnownSpan, PartText;
    if parts != [] {
      PartCuts(parts[0], f);
      assert forall i :: 0 <= i < |parts[1..]| ==> parts[1..][i] == parts[i + 1];
      TextAt(parts[1..], f);
      assert Texts(parts) == [PartText(parts[0])] + Texts(parts[1..]);
    }
  }

  // A field that is written as a list of parts is accepted exactly when each is sound, and then matches
  // exactly the values that one of them stands for.
  lemma FieldMeans(parts: seq<Part>, f: Field)
    requires Usual(f) && AllKnown(parts, f) && parts != []
    ensures CheckField(FieldText(parts), f) <==> forall i :: 0 <= i < |parts| ==> Sound(parts[i], f)
    ensures CheckField(FieldText(parts), f) ==>
              forall v :: FieldMatches(FieldText(parts), v, f) <==> exists i :: 0 <= i < |parts| && Means(parts[i], v, f)
  {
    hide Usual, KnownSpan, PartText, Split, Join, CheckRange, RangeMatches, Sound, Means, Texts;
    TextAt(parts, f);
    var text := FieldText(parts);
    SplitOfJoin(Texts(parts), ',');
    NotEmptyField(text);
    forall i | 0 <= i < |parts| ensures CheckRange(Texts(parts)[i], f) <==> Sound(parts[i], f) {
      PartAccepted(parts[i], f);
    }
    if CheckField(text, f) {
      assert forall i :: 0 <= i < |parts| ==> CheckRange(Texts(parts)[i], f);
      forall i, v | 0 <= i < |parts| ensures RangeMatches(Texts(parts)[i], v, f) <==> Means(parts[i], v, f) {
        PartMatches(parts[i], v, f);
      }
    } else if text == "" {
      assert Split(text, ',') == [""];
      EmptyIsRefused(f);
      assert !CheckRange(Texts(parts)[0], f);
    }
  }

  lemma NotEmptyField(text: string)
    ensures text == "" ==> Split(text, ',') == [""]
  {
  }

  lemma EmptyIsRefused(f: Field)
    ensures !CheckRange("", f)
  {
    CutNone("", "/");
    CutNone("", "-");
  }
}
