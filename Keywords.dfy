/** The QuickSIN answer key: a line-oriented text table turned into a map
    from (list number, sentence number) to the keyword slots of that
    sentence, each slot a list of accepted spellings. */
module Keywords {
  import opened Wrappers
  import opened Text

  /** One keyword slot: the accepted spellings of one expected word. */
  type Slot = seq<string>

  datatype Key = Key(list: int, sentence: int)

  /** What one line of the table contributes. */
  datatype LineOutcome =
    | Blank
    | Malformed(field: string)
    | Entry(key: Key, slots: seq<Slot>)

  /** The answer key, and the keys whose slot count was not five (the lines
      that drew a printed warning), in the order they were met. */
  datatype Table = Table(entries: map<Key, seq<Slot>>, warnings: seq<Key>)

  /** `int()` raised on the given column text, which aborts the whole
      ingestion. */
  datatype IngestError = BadNumber(field: string)

  /** The number of slots a well-formed sentence has. */
  const SlotsPerSentence := 5

  /** Splits a token such as `tear/tara` into its accepted spellings. */
  function WordAlternatives(words: string): (alts: seq<string>)
    ensures |alts| == Count(words, '/') + 1
    ensures Join(alts, '/') == words
    ensures forall a :: a in alts ==> '/' !in a
    ensures forall a, c :: a in alts && c in a ==> c in words
    ensures '/' !in words ==> alts == [words]
  {
    if '/' in words then
      JoinSplit(words, '/');
      Split(words, '/')
    else
      SplitNoSep(words, '/');
      [words]
  }

  /** The non-empty tokens of the line from column 7 on, split on single spaces. */
  function KeyWords(line: string): (words: seq<string>)
    ensures forall w :: w in words ==> w != [] && ' ' !in w
    ensures forall w, c :: w in words && c in w ==> c in line
  {
    var rest := SliceFrom(line, 7);
    var pieces := Split(rest, ' ');
    assert forall c :: c in rest ==> c in line;
    DropEmpty(pieces)
  }

  function KeyList(words: seq<string>): (slots: seq<Slot>)
    ensures |slots| == |words|
    ensures forall i :: 0 <= i < |words| ==> slots[i] == WordAlternatives(words[i])
  {
    seq(|words|, i requires 0 <= i < |words| => WordAlternatives(words[i]))
  }

  /** Rejoins each slot's spellings with `/`: the inverse of `KeyList`. */
  function Tokens(slots: seq<Slot>): (words: seq<string>)
    ensures |words| == |slots|
  {
    seq(|slots|, i requires 0 <= i < |slots| => Join(slots[i], '/'))
  }

  /** One pass of the loop body of the ingestion on one raw line. */
  function ParseLine(raw: string): (o: LineOutcome)
    ensures o.Blank? <==> AllSpace(raw)
    ensures o.Entry? ==> -9 <= o.key.list <= 99 && -9 <= o.key.sentence <= 99
  {
    var line := ToLower(Strip(raw));
    if line == [] then Blank
    else
      var listField := Slice(line, 1, 3);
      var sentenceField := Slice(line, 5, 7);
      ParseIntShortRange(listField);
      ParseIntShortRange(sentenceField);
      match ParseInt(listField)
      case None => Malformed(listField)
      case Some(listNumber) =>
        match ParseInt(sentenceField)
        case None => Malformed(sentenceField)
        case Some(sentenceNumber) =>
          Entry(Key(listNumber, sentenceNumber), KeyList(KeyWords(line)))
  }

  /** A stored line's slots: each is non-empty, and every spelling is lower
      case and holds neither a space nor a slash; rejoining the spellings with
      `/` gives back the line's tokens. */
  lemma ParseLineSlots(raw: string)
    requires ParseLine(raw).Entry?
    ensures var slots := ParseLine(raw).slots;
      Tokens(slots) == KeyWords(ToLower(Strip(raw)))
      && (forall slot :: slot in slots ==> |slot| >= 1)
      && (forall slot, a :: slot in slots && a in slot ==> IsLowered(a) && ' ' !in a && '/' !in a)
  {
    var line := ToLower(Strip(raw));
    assert ParseLine(raw).slots == KeyList(KeyWords(line));
    KeyListOfTokens(KeyWords(line), line);
  }

  /** The slots of lower-case, space-free tokens: rejoining gives the tokens
      back, and every spelling is non-empty, lower case and free of space
      and `/`. */
  lemma KeyListOfTokens(words: seq<string>, line: string)
    requires IsLowered(line)
    requires forall w :: w in words ==> w != [] && ' ' !in w
    requires forall w, c :: w in words && c in w ==> c in line
    ensures var slots := KeyList(words);
      Tokens(slots) == words
      && (forall slot :: slot in slots ==> |slot| >= 1)
      && (forall slot, a :: slot in slots && a in slot ==> IsLowered(a) && ' ' !in a && '/' !in a)
  {
    var slots := KeyList(words);
    assert forall i :: 0 <= i < |words| ==> Tokens(slots)[i] == words[i];
    forall slot, a | slot in slots && a in slot
      ensures IsLowered(a) && ' ' !in a && '/' !in a
    {
      var i :| 0 <= i < |slots| && slots[i] == slot;
      assert words[i] in words;
    }
  }

  /** A number column holding a character in U+001C..U+001F is rejected,
      although `strip()` would treat that character as whitespace. */
  lemma InfoSeparatorRejected(c: char, d: char, tail: string)
    requires IsInfoSeparator(c) && IsDigit(d)
    requires tail == [] || !IsSpace(tail[|tail| - 1])
    ensures ParseLine("L" + [c, d] + tail) == Malformed([c, d])
  {
    var raw := "L" + [c, d] + tail;
    assert raw[|raw| - 1] == if tail == [] then d else tail[|tail| - 1];
    StripUnpadded(raw);
    var line := ToLower(raw);
    assert line[1] == c && line[2] == d;
    assert Slice(line, 1, 3) == [c, d];
    assert IsInfoSeparator([c, d][0]);
  }

  /** The header of a table line: `L`, the list number in two columns,
      ` S`, the sentence number in two columns. */
  function Header(key: Key): string
    requires 0 <= key.list < 100 && 0 <= key.sentence < 100
  {
    "L" + Field(key.list) + " S" + Field(key.sentence)
  }

  /** The words, each lower-cased. */
  function LowerAll(words: seq<string>): (low: seq<string>)
    ensures |low| == |words|
    ensures forall i :: 0 <= i < |words| ==> low[i] == ToLower(words[i])
  {
    seq(|words|, i requires 0 <= i < |words| => ToLower(words[i]))
  }

  /** The words of a table line: at least one, none empty or holding
      whitespace, and at least one space in each gap between two of them. */
  predicate TableWords(words: seq<string>, gaps: seq<nat>) {
    |words| >= 1 && |gaps| == |words| - 1 && PositiveGaps(gaps)
    && forall w :: w in words ==> w != [] && forall c :: c in w ==> !IsSpace(c)
  }

  /** A line as the table lays it out: the header, `lead` spaces, then the
      words with `gaps[i]` spaces after word `i`. */
  function TableLine(key: Key, lead: nat, words: seq<string>, gaps: seq<nat>): string
    requires 0 <= key.list < 100 && 0 <= key.sentence < 100
    requires |words| >= 1 && |gaps| == |words| - 1
  {
    Header(key) + Spaces(lead) + SpacedJoin(words, gaps)
  }

  /** A table line parses to its key and to its words, lower-cased, each
      split into its spellings, in order, however many spaces separate them. */
  lemma ParseTableLine(key: Key, lead: nat, words: seq<string>, gaps: seq<nat>)
    requires 0 <= key.list < 100 && 0 <= key.sentence < 100
    requires TableWords(words, gaps)
    ensures ParseLine(TableLine(key, lead, words, gaps)) == Entry(key, KeyList(LowerAll(words)))
  {
    var raw := TableLine(key, lead, words, gaps);
    var line := LoweredLine(key, lead, words, gaps);
    FormattedLineNormalised(key, lead, words, gaps);
    LoweredLineColumns(key, lead, words, gaps);
    ParseNormalisedLine(raw, line, key);
  }

  /** The second line of list 11, which has two spaces inside its words. */
  const DoubleSpacedLine := "L11 S 2" + "  " + "offered proof  form large chart"
  const DoubleSpacedWords := ["offered", "proof", "form", "large", "chart"]
  const DoubleSpacedGaps: seq<nat> := [1, 2, 1, 1]

  /** `L11 S 2  offered proof  form large chart` still yields its five
      keywords, each its own single spelling. */
  lemma TableLineWithDoubleSpace()
    ensures ParseLine(DoubleSpacedLine) == Entry(Key(11, 2), [["offered"], ["proof"], ["form"], ["large"], ["chart"]])
  {
    DoubleSpacedLayout();
    DoubleSpacedWordsValid();
    ParseTableLine(Key(11, 2), 2, DoubleSpacedWords, DoubleSpacedGaps);
    DoubleSpacedLowered();
    DoubleSpacedSlots();
  }

  /** The line is laid out as the table lays out its lines. */
  lemma DoubleSpacedLayout()
    ensures TableLine(Key(11, 2), 2, DoubleSpacedWords, DoubleSpacedGaps) == DoubleSpacedLine
  {
    var head, join := Header(Key(11, 2)), SpacedJoin(DoubleSpacedWords, DoubleSpacedGaps);
    DoubleSpacedHeader();
    DoubleSpacedJoin();
    assert Spaces(2) == "  ";
  }


  /** The header of the line. */
  lemma DoubleSpacedHeader()
    ensures Header(Key(11, 2)) == "L11 S 2"
  {
    assert Field(11) == "11" && Field(2) == " 2";
  }

  /** Its words and gaps are those of a table line. */
  lemma DoubleSpacedWordsValid()
    ensures TableWords(DoubleSpacedWords, DoubleSpacedGaps)
  {
  }

  /** The words joined with their gaps. */
  lemma DoubleSpacedJoin()
    ensures SpacedJoin(DoubleSpacedWords, DoubleSpacedGaps) == "offered proof  form large chart"
  {
    FiveWordJoin("offered", "proof", "form", "large", "chart");
  }

  /** Five words joined with one, two, one and one spaces. */
  lemma FiveWordJoin(a: string, b: string, c: string, d: string, e: string)
    ensures SpacedJoin([a, b, c, d, e], [1, 2, 1, 1]) == a + " " + (b + "  " + (c + " " + (d + " " + e)))
  {
    assert Spaces(1) == " " && Spaces(2) == "  ";
    assert SpacedJoin([e], []) == e;
    JoinInFront(d, 1, [e], []);
    JoinInFront(c, 1, [d, e], [1]);
    JoinInFront(b, 2, [c, d, e], [1, 1]);
    JoinInFront(a, 1, [b, c, d, e], [2, 1, 1]);
  }

  /** One more word in front, with `g` spaces after it. */
  lemma JoinInFront(w: string, g: nat, words: seq<string>, gaps: seq<nat>)
    requires |words| >= 1 && |gaps| == |words| - 1
    ensures SpacedJoin([w] + words, [g] + gaps) == w + Spaces(g) + SpacedJoin(words, gaps)
  {
    assert ([w] + words)[1..] == words && ([g] + gaps)[1..] == gaps;
  }

  /** Its words are already lower case. */
  lemma DoubleSpacedLowered()
    ensures LowerAll(DoubleSpacedWords) == DoubleSpacedWords
  {
    var words := DoubleSpacedWords;
    forall i | 0 <= i < |words| ensures ToLower(words[i]) == words[i] {
      ToLowerOfLowered(words[i]);
    }
  }

  /** None of its words has a `/`. */
  lemma DoubleSpacedSlots()
    ensures KeyList(DoubleSpacedWords) == [["offered"], ["proof"], ["form"], ["large"], ["chart"]]
  {
    var words := DoubleSpacedWords;
    assert forall i :: 0 <= i < |words| ==> '/' !in words[i];
  }

  /** A table line after `strip().lower()`. */
  function LoweredLine(key: Key, lead: nat, words: seq<string>, gaps: seq<nat>): string
    requires 0 <= key.list < 100 && 0 <= key.sentence < 100
    requires |words| >= 1 && |gaps| == |words| - 1
  {
    "l" + Field(key.list) + " s" + Field(key.sentence) + Spaces(lead) + SpacedJoin(LowerAll(words), gaps)
  }

  lemma FormattedLineNormalised(key: Key, lead: nat, words: seq<string>, gaps: seq<nat>)
    requires 0 <= key.list < 100 && 0 <= key.sentence < 100
    requires TableWords(words, gaps)
    ensures ToLower(Strip(TableLine(key, lead, words, gaps))) == LoweredLine(key, lead, words, gaps)
  {
    var head := Header(key);
    HeaderLowered(key);
    FormattedLineStripped(head, lead, words, gaps);
    FormattedLineLowered(head, lead, words, gaps);
  }

  /** The columns and the tokens of a lowered table line. */
  lemma LoweredLineColumns(key: Key, lead: nat, words: seq<string>, gaps: seq<nat>)
    requires 0 <= key.list < 100 && 0 <= key.sentence < 100
    requires TableWords(words, gaps)
    ensures var line := LoweredLine(key, lead, words, gaps);
      line != [] && ParseInt(Slice(line, 1, 3)) == Some(key.list)
      && ParseInt(Slice(line, 5, 7)) == Some(key.sentence)
      && KeyWords(line) == LowerAll(words)
  {
    var lowHead := "l" + Field(key.list) + " s" + Field(key.sentence);
    var low := LowerAll(words);
    var rest := Spaces(lead) + SpacedJoin(low, gaps);
    assert LoweredLine(key, lead, words, gaps) == lowHead + rest;
    LowerAllSpaceFree(words);
    KeyWordsOfFormatted(lowHead, lead, low, gaps);
    HeaderColumns(Field(key.list), Field(key.sentence), rest);
    ParseIntField(key.list);
    ParseIntField(key.sentence);
  }

  /** The two number columns of a lower-cased header. */
  lemma HeaderColumns(listField: string, sentenceField: string, rest: string)
    requires |listField| == 2 && |sentenceField| == 2
    ensures var line := "l" + listField + " s" + sentenceField + rest;
      line != [] && Slice(line, 1, 3) == listField && Slice(line, 5, 7) == sentenceField
  {
  }

  /** The parse of a line, given its stripped and lower-cased form and the
      numbers its two columns hold. */
  lemma ParseNormalisedLine(raw: string, line: string, key: Key)
    requires ToLower(Strip(raw)) == line && line != []
    requires ParseInt(Slice(line, 1, 3)) == Some(key.list)
    requires ParseInt(Slice(line, 5, 7)) == Some(key.sentence)
    ensures ParseLine(raw) == Entry(key, KeyList(KeyWords(line)))
  {
  }

  lemma LowerAllSpaceFree(words: seq<string>)
    requires forall w :: w in words ==> w != [] && forall c :: c in w ==> !IsSpace(c)
    ensures forall w :: w in LowerAll(words) ==> w != [] && ' ' !in w
  {
    var low := LowerAll(words);
    forall w | w in low ensures w != [] && ' ' !in w {
      var i :| 0 <= i < |low| && low[i] == w;
      assert words[i] in words;
      forall k | 0 <= k < |w| ensures w[k] != ' ' {
        assert words[i][k] in words[i];
      }
    }
  }

  /** Lower-casing leaves spaces alone. */
  lemma SpacesLowered(n: nat)
    ensures ToLower(Spaces(n)) == Spaces(n)
  {
    var s := Spaces(n);
    forall c | c in s ensures !IsUpper(c) {
      var k :| 0 <= k < |s| && s[k] == c;
    }
    ToLowerOfLowered(s);
  }

  /** Lower-casing space-separated words lower-cases each word. */
  lemma {:induction false} ToLowerSpaced(words: seq<string>, gaps: seq<nat>)
    requires |words| >= 1 && |gaps| == |words| - 1
    ensures ToLower(SpacedJoin(words, gaps)) == SpacedJoin(LowerAll(words), gaps)
    decreases |words|
  {
    if |words| > 1 {
      var rest := SpacedJoin(words[1..], gaps[1..]);
      ToLowerSpaced(words[1..], gaps[1..]);
      ToLowerAppend(words[0] + Spaces(gaps[0]), rest);
      ToLowerAppend(words[0], Spaces(gaps[0]));
      SpacesLowered(gaps[0]);
      assert LowerAll(words)[1..] == LowerAll(words[1..]);
    }
  }

  /** Lower-casing a table line reaches only its header and its words. */
  lemma FormattedLineLowered(head: string, lead: nat, words: seq<string>, gaps: seq<nat>)
    requires |words| >= 1 && |gaps| == |words| - 1
    ensures ToLower(head + Spaces(lead) + SpacedJoin(words, gaps))
         == ToLower(head) + Spaces(lead) + SpacedJoin(LowerAll(words), gaps)
  {
    var body, low := SpacedJoin(words, gaps), SpacedJoin(LowerAll(words), gaps);
    SpacedBodyLowered(lead, words, gaps);
    LowerPrefixed(head, Spaces(lead), body, low);
  }

  /** Lower-casing a header followed by text whose lower-cased form is known. */
  lemma LowerPrefixed(head: string, pad: string, body: string, low: string)
    requires ToLower(pad + body) == pad + low
    ensures ToLower(head + pad + body) == ToLower(head) + pad + low
  {
    assert head + pad + body == head + (pad + body);
    ToLowerAppend(head, pad + body);
    assert ToLower(head) + (pad + low) == ToLower(head) + pad + low;
  }

  /** Lower-casing the spaces and words after the header. */
  lemma SpacedBodyLowered(lead: nat, words: seq<string>, gaps: seq<nat>)
    requires |words| >= 1 && |gaps| == |words| - 1
    ensures ToLower(Spaces(lead) + SpacedJoin(words, gaps)) == Spaces(lead) + SpacedJoin(LowerAll(words), gaps)
  {
    ToLowerAppend(Spaces(lead), SpacedJoin(words, gaps));
    SpacesLowered(lead);
    ToLowerSpaced(words, gaps);
  }

  /** A table line has nothing to strip. */
  lemma FormattedLineStripped(head: string, lead: nat, words: seq<string>, gaps: seq<nat>)
    requires head != [] && !IsSpace(head[0])
    requires TableWords(words, gaps)
    ensures Strip(head + Spaces(lead) + SpacedJoin(words, gaps)) == head + Spaces(lead) + SpacedJoin(words, gaps)
  {
    LastWordEndsUnspaced(words);
    SpacedJoinEnd(words, gaps);
    StripConcatUnpadded(head + Spaces(lead), SpacedJoin(words, gaps));
  }

  lemma LastWordEndsUnspaced(words: seq<string>)
    requires |words| >= 1
    requires forall w :: w in words ==> w != [] && forall c :: c in w ==> !IsSpace(c)
    ensures var last := words[|words| - 1]; last != [] && !IsSpace(last[|last| - 1])
  {
    var last := words[|words| - 1];
    assert last in words;
    assert last[|last| - 1] in last;
  }

  lemma HeaderLowered(key: Key)
    requires 0 <= key.list < 100 && 0 <= key.sentence < 100
    ensures var h := Header(key);
      |h| == 7 && h[0] == 'L' && ToLower(h) == "l" + Field(key.list) + " s" + Field(key.sentence)
  {
    ToLowerAppend("L" + Field(key.list), " S" + Field(key.sentence));
    ToLowerAppend("L", Field(key.list));
    ToLowerAppend(" S", Field(key.sentence));
    FieldLowered(key.list);
    FieldLowered(key.sentence);
  }

  /** After a seven-column header and a run of spaces, the tokens are
      exactly the space-free words that follow, in order. */
  lemma KeyWordsOfFormatted(head: string, lead: nat, low: seq<string>, gaps: seq<nat>)
    requires |head| == 7 && |low| >= 1 && |gaps| == |low| - 1 && PositiveGaps(gaps)
    requires forall w :: w in low ==> w != [] && ' ' !in w
    ensures KeyWords(head + Spaces(lead) + SpacedJoin(low, gaps)) == low
  {
    var j := SpacedJoin(low, gaps);
    var rest := Spaces(lead) + j;
    assert head + Spaces(lead) + j == head + rest;
    assert SliceFrom(head + rest, 7) == rest;
    assert KeyWords(head + rest) == DropEmpty(Split(rest, ' '));
    DropSplitLeadingSpaces(lead, j);
    SplitSpacedJoin(low, gaps);
  }

  /** Spaces in front of a string add only empty pieces, which are dropped. */
  lemma DropSplitLeadingSpaces(n: nat, t: string)
    ensures DropEmpty(Split(Spaces(n) + t, ' ')) == DropEmpty(Split(t, ' '))
  {
    SplitLeadingSpaces(n, t);
    DropEmptyAppend(Empties(n), Split(t, ' '));
    DropEmptyEmpties(n);
  }

  lemma FieldLowered(n: nat)
    requires n < 100
    ensures ToLower(Field(n)) == Field(n)
  {
    ToLowerOfLowered(Field(n));
  }

  /** The state after one line: what the loop body does to the dictionary,
      the warning list, or the raised error. */
  function Step(t: Table, o: LineOutcome): (r: Result<Table, IngestError>)
    ensures o.Blank? ==> r == Success(t)
    ensures r.Failure? <==> o.Malformed?
    ensures o.Malformed? ==> r.error == BadNumber(o.field)
    ensures o.Entry? ==> o.key in r.value.entries && r.value.entries[o.key] == o.slots
    ensures o.Entry? ==> forall k :: k in t.entries && k != o.key ==>
                                     k in r.value.entries && r.value.entries[k] == t.entries[k]
    ensures o.Entry? ==> forall k :: k in r.value.entries ==> k == o.key || k in t.entries
    ensures o.Entry? ==> r.value.warnings ==
                           t.warnings + if |o.slots| == SlotsPerSentence then [] else [o.key]
  {
    match o
    case Blank => Success(t)
    case Malformed(f) => Failure(BadNumber(f))
    case Entry(k, slots) =>
      Success(Table(t.entries[k := slots],
                    if |slots| != SlotsPerSentence then t.warnings + [k] else t.warnings))
  }

  /** The table built from the outcomes of the lines, in order, or the
      first error raised. */
  function Build(os: seq<LineOutcome>): Result<Table, IngestError>
    decreases |os|
  {
    if os == [] then Success(Table(map[], []))
    else
      match Build(os[..|os| - 1])
      case Failure(e) => Failure(e)
      case Success(t) => Step(t, os[|os| - 1])
  }

  function Outcomes(lines: seq<string>): (os: seq<LineOutcome>)
    ensures |os| == |lines|
    ensures forall i :: 0 <= i < |lines| ==> os[i] == ParseLine(lines[i])
  {
    seq(|lines|, i requires 0 <= i < |lines| => ParseLine(lines[i]))
  }

  /** `ingest_spin_keyword_lists` as a function of its lines. */
  function Ingest(lines: seq<string>): Result<Table, IngestError> {
    Build(Outcomes(lines))
  }

  /** The loop of the source: processes the lines in order, updating the
      dictionary, and stops at the first field `int()` rejects. */
  method IngestSpinKeywordLists(keyWordList: seq<string>)
    returns (r: Result<Table, IngestError>)
    ensures r == Ingest(keyWordList)
  {
    var allKeywordDict: map<Key, seq<Slot>> := map[];
    var warnings: seq<Key> := [];
    var i := 0;
    while i < |keyWordList|
      invariant 0 <= i <= |keyWordList|
      invariant Ingest(keyWordList[..i]) == Success(Table(allKeywordDict, warnings))
    {
      IngestPrefix(keyWordList, i);
      ghost var t := Table(allKeywordDict, warnings);
      var line := ToLower(Strip(keyWordList[i]));
      if line == [] {
        assert ParseLine(keyWordList[i]) == Blank;
        i := i + 1;
        continue;
      }
      var listNumber := ParseInt(Slice(line, 1, 3));
      if listNumber.None? {
        r := Failure(BadNumber(Slice(line, 1, 3)));
        assert ParseLine(keyWordList[i]) == Malformed(Slice(line, 1, 3));
        IngestFailureStays(keyWordList, i + 1);
        return;
      }
      var sentenceNumber := ParseInt(Slice(line, 5, 7));
      if sentenceNumber.None? {
        r := Failure(BadNumber(Slice(line, 5, 7)));
        assert ParseLine(keyWordList[i]) == Malformed(Slice(line, 5, 7));
        IngestFailureStays(keyWordList, i + 1);
        return;
      }
      var keyWords := KeyWords(line);
      var keyList := KeyList(keyWords);
      var key := Key(listNumber.value, sentenceNumber.value);
      assert ParseLine(keyWordList[i]) == Entry(key, keyList);
      if |keyList| != SlotsPerSentence {
        warnings := warnings + [key];
      }
      allKeywordDict := allKeywordDict[key := keyList];
      assert Step(t, Entry(key, keyList)) == Success(Table(allKeywordDict, warnings));
      i := i + 1;
    }
    assert keyWordList[..i] == keyWordList;
    r := Success(Table(allKeywordDict, warnings));
  }

  /** Ingesting one more line is one more step of the loop. */
  lemma IngestPrefix(lines: seq<string>, n: nat)
    requires n < |lines|
    ensures Ingest(lines[..n + 1]) ==
      match Ingest(lines[..n])
      case Failure(e) => Failure(e)
      case Success(t) => Step(t, ParseLine(lines[n]))
  {
    assert lines[..n + 1] == lines[..n] + [lines[n]];
    OutcomesAppend(lines[..n], [lines[n]]);
    var os := Outcomes(lines[..n + 1]);
    assert os[..n] == Outcomes(lines[..n]);
  }

  /** Once a line has raised, later lines do not matter. */
  lemma IngestFailureStays(lines: seq<string>, n: nat)
    requires n <= |lines| && Ingest(lines[..n]).Failure?
    ensures Ingest(lines) == Ingest(lines[..n])
  {
    assert lines == lines[..n] + lines[n..];
    OutcomesAppend(lines[..n], lines[n..]);
    var os := Outcomes(lines);
    assert os[..n] == Outcomes(lines[..n]);
    BuildFailureStays(os, n);
  }

  /** Once a line has raised, later lines do not matter. */
  lemma {:induction false} BuildFailureStays(os: seq<LineOutcome>, n: nat)
    requires n <= |os| && Build(os[..n]).Failure?
    ensures Build(os) == Build(os[..n])
    decreases |os| - n
  {
    if n < |os| {
      assert os[..n + 1][..n] == os[..n];
      BuildFailureStays(os, n + 1);
    } else {
      assert os[..n] == os;
    }
  }

  lemma {:induction false} BuildSucceedsIff(os: seq<LineOutcome>)
    ensures Build(os).Success? <==> forall i :: 0 <= i < |os| ==> !os[i].Malformed?
  {
    if os != [] {
      var init := os[..|os| - 1];
      BuildSucceedsIff(init);
      assert forall i :: 0 <= i < |init| ==> init[i] == os[i];
    }
  }

  lemma {:induction false} BuildFailsAtFirstMalformed(os: seq<LineOutcome>)
    requires Build(os).Failure?
    ensures exists i :: 0 <= i < |os| && os[i] == Malformed(Build(os).error.field)
              && forall j :: 0 <= j < i ==> !os[j].Malformed?
  {
    var init := os[..|os| - 1];
    assert forall i :: 0 <= i < |init| ==> init[i] == os[i];
    if Build(init).Failure? {
      BuildFailsAtFirstMalformed(init);
      var i :| 0 <= i < |init| && init[i] == Malformed(Build(init).error.field)
              && forall j :: 0 <= j < i ==> !init[j].Malformed?;
      assert os[i] == Malformed(Build(os).error.field);
    } else {
      BuildSucceedsIff(init);
      assert os[|os| - 1] == Malformed(Build(os).error.field);
    }
  }

  predicate HasKey(o: LineOutcome, k: Key) {
    o.Entry? && o.key == k
  }

  lemma {:induction false} BuildKeys(os: seq<LineOutcome>, k: Key)
    requires Build(os).Success?
    ensures k in Build(os).value.entries <==> exists i :: 0 <= i < |os| && HasKey(os[i], k)
  {
    if os != [] {
      var init := os[..|os| - 1];
      BuildKeys(init, k);
      assert forall i :: 0 <= i < |init| ==> init[i] == os[i];
      if HasKey(os[|os| - 1], k) {
        assert k in Build(os).value.entries;
      } else if k in Build(os).value.entries {
        var i :| 0 <= i < |init| && HasKey(init[i], k);
        assert HasKey(os[i], k);
      }
    }
  }

  lemma {:induction false} BuildLastWins(os: seq<LineOutcome>, i: nat)
    requires Build(os).Success?
    requires i < |os| && os[i].Entry?
    requires forall j :: i < j < |os| ==> !HasKey(os[j], os[i].key)
    ensures os[i].key in Build(os).value.entries
    ensures Build(os).value.entries[os[i].key] == os[i].slots
  {
    var init := os[..|os| - 1];
    if i < |os| - 1 {
      assert forall j :: 0 <= j < |init| ==> init[j] == os[j];
      assert !HasKey(os[|os| - 1], os[i].key);
      BuildLastWins(init, i);
    }
  }

  lemma {:induction false} BuildWarnings(os: seq<LineOutcome>, k: Key)
    requires Build(os).Success?
    ensures k in Build(os).value.warnings <==>
      exists i :: 0 <= i < |os| && HasKey(os[i], k) && |os[i].slots| != SlotsPerSentence
  {
    if os != [] {
      var init := os[..|os| - 1];
      BuildWarnings(init, k);
      assert forall i :: 0 <= i < |init| ==> init[i] == os[i];
      var last := os[|os| - 1];
      if HasKey(last, k) && |last.slots| != SlotsPerSentence {
        assert k in Build(os).value.warnings;
      } else if k in Build(os).value.warnings {
        assert k in Build(init).value.warnings;
        var i :| 0 <= i < |init| && HasKey(init[i], k) && |init[i].slots| != SlotsPerSentence;
        assert HasKey(os[i], k);
      }
    }
  }

  lemma {:induction false} BuildSkipsBlank(before: seq<LineOutcome>, after: seq<LineOutcome>)
    ensures Build(before + [Blank] + after) == Build(before + after)
    decreases |after|
  {
    var l := before + [Blank] + after;
    var m := before + after;
    if after == [] {
      assert l[..|l| - 1] == before;
      assert l[|l| - 1] == Blank;
      assert m == before;
    } else {
      var init := after[..|after| - 1];
      BuildSkipsBlank(before, init);
      assert l[..|l| - 1] == before + [Blank] + init;
      assert m[..|m| - 1] == before + init;
      assert l[|l| - 1] == m[|m| - 1];
    }
  }

  /** Each stored entry is the slots of some outcome under that key. */
  lemma {:induction false} BuildEntriesFrom(os: seq<LineOutcome>, k: Key)
    requires Build(os).Success? && k in Build(os).value.entries
    ensures exists i :: 0 <= i < |os| && os[i] == Entry(k, Build(os).value.entries[k])
  {
    var init := os[..|os| - 1];
    assert forall i :: 0 <= i < |init| ==> init[i] == os[i];
    if !HasKey(os[|os| - 1], k) {
      BuildEntriesFrom(init, k);
      var i :| 0 <= i < |init| && init[i] == Entry(k, Build(init).value.entries[k]);
      assert os[i] == Entry(k, Build(os).value.entries[k]);
    }
  }

  /** Ingestion succeeds exactly when no line has a column `int()` rejects. */
  lemma IngestSucceedsIff(lines: seq<string>)
    ensures Ingest(lines).Success? <==> forall i :: 0 <= i < |lines| ==> !ParseLine(lines[i]).Malformed?
  {
    BuildSucceedsIff(Outcomes(lines));
  }

  /** On failure the error carries the column text of the first malformed line. */
  lemma IngestFailsAtFirstMalformed(lines: seq<string>)
    requires Ingest(lines).Failure?
    ensures exists i :: 0 <= i < |lines| && ParseLine(lines[i]) == Malformed(Ingest(lines).error.field)
              && forall j :: 0 <= j < i ==> !ParseLine(lines[j]).Malformed?
  {
    BuildFailsAtFirstMalformed(Outcomes(lines));
  }

  /** The raw line `raw` is stored under key `k`. */
  predicate StoresUnder(raw: string, k: Key) {
    HasKey(ParseLine(raw), k)
  }

  /** Every key of the table comes from a non-blank line that parsed to it,
      and every such line's key is in the table. */
  lemma IngestKeys(lines: seq<string>, k: Key)
    requires Ingest(lines).Success?
    ensures k in Ingest(lines).value.entries <==> exists i :: 0 <= i < |lines| && StoresUnder(lines[i], k)
  {
    var os := Outcomes(lines);
    BuildKeys(os, k);
    if k in Ingest(lines).value.entries {
      var i :| 0 <= i < |os| && HasKey(os[i], k);
      assert StoresUnder(lines[i], k);
    }
  }

  /** Last write wins: the entry under a key is the slots of the last line
      stored under that key. */
  lemma IngestLastWins(lines: seq<string>, i: nat)
    requires Ingest(lines).Success?
    requires i < |lines| && ParseLine(lines[i]).Entry?
    requires forall j :: i < j < |lines| ==> !StoresUnder(lines[j], ParseLine(lines[i]).key)
    ensures ParseLine(lines[i]).key in Ingest(lines).value.entries
    ensures Ingest(lines).value.entries[ParseLine(lines[i]).key] == ParseLine(lines[i]).slots
  {
    BuildLastWins(Outcomes(lines), i);
  }

  /** A key is warned about exactly when some line stored under it had a
      slot count other than five; the entry is stored all the same. */
  lemma IngestWarnings(lines: seq<string>, k: Key)
    requires Ingest(lines).Success?
    ensures k in Ingest(lines).value.warnings <==>
      exists i :: 0 <= i < |lines| && StoresUnder(lines[i], k) && |ParseLine(lines[i]).slots| != SlotsPerSentence
  {
    var os := Outcomes(lines);
    BuildWarnings(os, k);
    if k in Ingest(lines).value.warnings {
      var i :| 0 <= i < |os| && HasKey(os[i], k) && |os[i].slots| != SlotsPerSentence;
      assert StoresUnder(lines[i], k);
    }
  }

  /** Each line's outcome depends on that line alone. */
  lemma OutcomesAppend(a: seq<string>, b: seq<string>)
    ensures Outcomes(a + b) == Outcomes(a) + Outcomes(b)
  {
  }

  /** A line that is blank after stripping contributes nothing, wherever it
      stands. */
  lemma IngestSkipsBlank(before: seq<string>, blank: string, after: seq<string>)
    requires AllSpace(blank)
    ensures Ingest(before + [blank] + after) == Ingest(before + after)
  {
    OutcomesAppend(before + [blank], after);
    OutcomesAppend(before, [blank]);
    OutcomesAppend(before, after);
    assert Outcomes([blank]) == [Blank];
    BuildSkipsBlank(Outcomes(before), Outcomes(after));
  }

  /** Every spelling stored anywhere in the table is lower case and holds
      neither a space nor a slash, every slot has a spelling, and every key
      lies in [-9, 99] x [-9, 99]. */
  lemma IngestWellFormed(lines: seq<string>, k: Key)
    requires Ingest(lines).Success? && k in Ingest(lines).value.entries
    ensures -9 <= k.list <= 99 && -9 <= k.sentence <= 99
    ensures forall slot :: slot in Ingest(lines).value.entries[k] ==> |slot| >= 1
    ensures forall slot, a :: slot in Ingest(lines).value.entries[k] && a in slot ==>
              IsLowered(a) && ' ' !in a && '/' !in a
  {
    var os := Outcomes(lines);
    BuildEntriesFrom(os, k);
    var i :| 0 <= i < |os| && os[i] == Entry(k, Build(os).value.entries[k]);
    ParseLineSlots(lines[i]);
  }
}
