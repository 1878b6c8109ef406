/** What a converted name looks like, said of its bytes, and where its words begin. */
module CaseTheorems {
  import opened Bits
  import opened Cases
  import opened Utf8
  import Wire

  predicate Capital(b: u8) { 'A' as int <= b <= 'Z' as int }
  predicate Small(b: u8) { 'a' as int <= b <= 'z' as int }
  predicate Digit(b: u8) { '0' as int <= b <= '9' as int }
  predicate BeyondAscii(b: u8) { b >= 0x80 }

  /** One letter, whatever its case. */
  predicate SameLetter(a: u8, b: u8) {
    || a == b
    || (Capital(a) && b - a == 'a' as int - 'A' as int)
    || (Capital(b) && a - b == 'a' as int - 'A' as int)
  }

  // ---------------------------------------------------------------------
  // The eight spellings
  // ---------------------------------------------------------------------

  /** The case a style asks of letter `j` of word `i`. */
  predicate CaseOf(style: Style, i: nat, j: nat, b: u8) {
    match style
    case Lower | Snake | Kebab => !Capital(b)
    case Upper | ScreamingSnake | ScreamingKebab => !Small(b)
    case Pascal => if j == 0 then !Small(b) else !Capital(b)
    case Camel => if i > 0 && j == 0 then !Small(b) else !Capital(b)
  }

  /** What a style puts between two words. */
  function Between(style: Style): Bytes {
    match style
    case Snake | ScreamingSnake => ['_' as int]
    case Kebab | ScreamingKebab => ['-' as int]
    case Lower | Upper | Pascal | Camel => []
  }

  function Joined(parts: seq<Bytes>, sep: Bytes): Bytes {
    if parts == [] then []
    else if |parts| == 1 then parts[0]
    else Joined(parts[..|parts| - 1], sep) + sep + parts[|parts| - 1]
  }

  /** `part` is word `i` in the style: the same letters, each in the case asked of it. */
  predicate PartOf(style: Style, i: nat, w: Bytes, part: Bytes) {
    |part| == |w| && forall j | 0 <= j < |w| :: SameLetter(w[j], part[j]) && CaseOf(style, i, j, part[j])
  }

  ghost predicate PartsOf(style: Style, ws: seq<Bytes>, parts: seq<Bytes>) {
    |parts| == |ws| && forall i | 0 <= i < |ws| :: PartOf(style, i, ws[i], parts[i])
  }

  function SpellingAt(style: Style, i: nat): Spelling {
    if i == 0 then style.First() else style.Rest()
  }

  lemma LetterIs(a: u8, style: Style, i: nat, j: nat, b: u8)
    ensures b == Letter(a, SpellingAt(style, i), j == 0) <==> SameLetter(a, b) && CaseOf(style, i, j, b)
  {
  }

  lemma PartIs(style: Style, i: nat, w: Bytes, part: Bytes)
    ensures part == Respelled(w, SpellingAt(style, i)) <==> PartOf(style, i, w, part)
  {
    hide Letter, SameLetter, CaseOf, SpellingAt;
    var r := Respelled(w, SpellingAt(style, i));
    forall j | 0 <= j < |w| ensures SameLetter(w[j], r[j]) && CaseOf(style, i, j, r[j]) {
      LetterIs(w[j], style, i, j, r[j]);
    }
    if PartOf(style, i, w, part) {
      forall j | 0 <= j < |w| ensures part[j] == r[j] { LetterIs(w[j], style, i, j, part[j]); }
    }
  }

  /** A spelling is its words' parts with the style's separator between them, and there is no
      other. */
  lemma SpelledIs(ws: seq<Bytes>, style: Style)
    ensures exists parts :: PartsOf(style, ws, parts) && Spelled(ws, style) == Joined(parts, Between(style))
    ensures forall parts | PartsOf(style, ws, parts) :: Spelled(ws, style) == Joined(parts, Between(style))
  {
    hide PartOf, Respelled, Between, Style.First, Style.Rest;
    var parts := Parts(ws, style);
    forall i | 0 <= i < |ws| ensures PartOf(style, i, ws[i], parts[i]) { PartIs(style, i, ws[i], parts[i]); }
    assert PartsOf(style, ws, parts);
    SpelledJoins(ws, style);
    forall other | PartsOf(style, ws, other) ensures other == parts {
      forall i | 0 <= i < |ws| ensures other[i] == parts[i] { PartIs(style, i, ws[i], other[i]); }
    }
  }

  function Parts(ws: seq<Bytes>, style: Style): (r: seq<Bytes>)
    ensures |r| == |ws|
  {
    seq(|ws|, i requires 0 <= i < |ws| => Respelled(ws[i], SpellingAt(style, i)))
  }

  lemma {:induction false} SpelledJoins(ws: seq<Bytes>, style: Style)
    ensures Spelled(ws, style) == Joined(Parts(ws, style), Between(style))
  {
    hide Respelled, Style.First, Style.Rest;
    assert Separator(style) == Between(style);
    if |ws| > 1 {
      SpelledJoins(ws[..|ws| - 1], style);
      assert Parts(ws, style)[..|ws| - 1] == Parts(ws[..|ws| - 1], style);
    }
  }

  /** A converted name holds no capital in the lower styles and no small letter in the upper. */
  lemma ConvertedCase(name: Bytes, style: Style)
    ensures style in {Lower, Snake, Kebab} ==> forall k | 0 <= k < |Converted(name, style)| :: !Capital(Converted(name, style)[k])
    ensures style in {Upper, ScreamingSnake, ScreamingKebab} ==>
              forall k | 0 <= k < |Converted(name, style)| :: !Small(Converted(name, style)[k])
  {
    SpelledCase(Words(name), style);
  }

  lemma {:induction false} SpelledCase(ws: seq<Bytes>, style: Style)
    ensures style in {Lower, Snake, Kebab} ==> forall k | 0 <= k < |Spelled(ws, style)| :: !Capital(Spelled(ws, style)[k])
    ensures style in {Upper, ScreamingSnake, ScreamingKebab} ==> forall k | 0 <= k < |Spelled(ws, style)| :: !Small(Spelled(ws, style)[k])
  {
    if |ws| > 1 { SpelledCase(ws[..|ws| - 1], style); }
  }

  /** camelCase is PascalCase with its first word lowered, and begins with no capital. */
  lemma {:induction false} CamelIsPascal(ws: seq<Bytes>)
    requires ws != [] && forall i | 0 <= i < |ws| :: ws[i] != []
    ensures var camel, pascal, first := Spelled(ws, Camel), Spelled(ws, Pascal), |ws[0]|;
            && first <= |camel| == |pascal| && camel[first..] == pascal[first..]
            && forall k | 0 <= k < first :: !Capital(camel[k]) && SameLetter(camel[k], pascal[k])
    ensures !Small(Spelled(ws, Pascal)[0])
  {
    if |ws| > 1 { CamelIsPascal(ws[..|ws| - 1]); }
  }

  // ---------------------------------------------------------------------
  // Where words begin
  // ---------------------------------------------------------------------

  function Flat(ws: seq<Bytes>): Bytes {
    if ws == [] then [] else Flat(ws[..|ws| - 1]) + ws[|ws| - 1]
  }

  function Stripped(b: Bytes): Bytes {
    if b == [] then []
    else Stripped(b[..|b| - 1]) + if b[|b| - 1] == '_' as int then [] else [b[|b| - 1]]
  }

  lemma FlatMore(ws: seq<Bytes>, w: Bytes)
    ensures Flat(ws + [w]) == Flat(ws) + w
  {
    assert (ws + [w])[..|ws|] == ws;
  }

  /** One more letter: a word begun, or the last one longer. */
  function Grown(ws: seq<Bytes>, c: u8, begins: bool): seq<Bytes>
    requires begins || ws != []
  {
    if begins then ws + [[c]] else ws[..|ws| - 1] + [ws[|ws| - 1] + [c]]
  }

  lemma WordsGrow(b: Bytes, n: nat)
    requires 0 < n <= |b| && b[n - 1] != UNDERSCORE
    ensures BeginsWord(b, n - 1) || WordsTo(b, n - 1) != []
    ensures WordsTo(b, n) == Grown(WordsTo(b, n - 1), b[n - 1], BeginsWord(b, n - 1))
  {
    if !BeginsWord(b, n - 1) { NotFirst(b, n - 1); }
  }

  lemma WordsStay(b: Bytes, n: nat)
    requires 0 < n <= |b| && b[n - 1] == UNDERSCORE
    ensures WordsTo(b, n) == WordsTo(b, n - 1)
  {
  }

  lemma NoWords(b: Bytes)
    ensures WordsTo(b, 0) == []
  {
  }

  lemma GrownAppend(ws: seq<Bytes>, vs: seq<Bytes>, c: u8, begins: bool)
    requires begins || vs != []
    ensures Grown(ws + vs, c, begins) == ws + Grown(vs, c, begins)
  {
    if !begins {
      assert (ws + vs)[..|ws + vs| - 1] == ws + vs[..|vs| - 1] && (ws + vs)[|ws + vs| - 1] == vs[|vs| - 1];
    }
  }

  /** The words hold the name's bytes in order, all but the underscores. */
  lemma {:induction false} WordsKeepBytes(b: Bytes, n: nat)
    requires n <= |b|
    ensures Flat(WordsTo(b, n)) == Stripped(b[..n])
  {
    hide WordsTo, BeginsWord;
    if n == 0 {
      NoWords(b);
    } else {
      WordsKeepBytes(b, n - 1);
      assert b[..n][..n - 1] == b[..n - 1];
      if b[n - 1] == UNDERSCORE {
        WordsStay(b, n);
      } else {
        WordsGrow(b, n);
        FlatGrows(WordsTo(b, n - 1), b[n - 1], BeginsWord(b, n - 1));
      }
    }
  }

  lemma FlatGrows(ws: seq<Bytes>, c: u8, begins: bool)
    requires begins || ws != []
    ensures Flat(Grown(ws, c, begins)) == Flat(ws) + [c]
  {
    if begins {
      FlatMore(ws, [c]);
    } else {
      var init, last := ws[..|ws| - 1], ws[|ws| - 1];
      FlatMore(init, last + [c]);
      assert init + [last] == ws;
    }
  }

  lemma BeginsEarlier(a: Bytes, b: Bytes, i: nat)
    requires i < |a| && a[i] != UNDERSCORE && (b == [] || !(Small(b[0]) || BeyondAscii(b[0])))
    ensures BeginsWord(a + b, i) == BeginsWord(a, i)
  {
    assert i + 1 == |a| && b != [] ==> (a + b)[i + 1] == b[0];
  }

  /** Words read off a prefix are those of any name that continues it alike. */
  lemma {:induction false} PrefixWords(a: Bytes, b: Bytes, n: nat)
    requires n <= |a| && (b == [] || !(Small(b[0]) || BeyondAscii(b[0])))
    ensures WordsTo(a + b, n) == WordsTo(a, n)
  {
    hide BeginsWord, WordsTo;
    if n == 0 {
      NoWords(a + b);
      NoWords(a);
    } else {
      PrefixWords(a, b, n - 1);
      assert (a + b)[n - 1] == a[n - 1];
      if a[n - 1] == UNDERSCORE {
        WordsStay(a + b, n);
        WordsStay(a, n);
      } else {
        BeginsEarlier(a, b, n - 1);
        WordsGrow(a + b, n);
        WordsGrow(a, n);
      }
    }
  }

  ghost predicate BeginAlike(s: Bytes, b: Bytes) {
    forall i | 0 <= i < |b| && b[i] != UNDERSCORE :: (s + b)[|s| + i] == b[i] && BeginsWord(s + b, |s| + i) == BeginsWord(b, i)
  }

  lemma BeginsLater(s: Bytes, b: Bytes, i: nat)
    requires 0 < i < |b| && b[i] != UNDERSCORE
    ensures BeginsWord(s + b, |s| + i) == BeginsWord(b, i)
  {
  }

  lemma BeginningAlike(s: Bytes, b: Bytes)
    requires b != [] && b[0] != UNDERSCORE ==> BeginsWord(s + b, |s|)
    ensures BeginAlike(s, b)
  {
    forall i | 0 <= i < |b| && b[i] != UNDERSCORE ensures BeginsWord(s + b, |s| + i) == BeginsWord(b, i) {
      if i > 0 { BeginsLater(s, b, i); }
    }
  }

  lemma {:induction false} SuffixWords(s: Bytes, b: Bytes, n: nat)
    requires n <= |b| && BeginAlike(s, b)
    ensures WordsTo(s + b, |s| + n) == WordsTo(s + b, |s|) + WordsTo(b, n)
  {
    hide BeginsWord, WordsTo;
    if n == 0 {
      NoWords(b);
    } else {
      SuffixWords(s, b, n - 1);
      assert (s + b)[|s| + n - 1] == b[n - 1];
      if b[n - 1] == UNDERSCORE {
        WordsStay(s + b, |s| + n);
        WordsStay(b, n);
      } else {
        WordsGrow(s + b, |s| + n);
        WordsGrow(b, n);
        GrownAppend(WordsTo(s + b, |s|), WordsTo(b, n - 1), b[n - 1], BeginsWord(b, n - 1));
      }
    }
  }

  lemma NotFirst(b: Bytes, i: nat)
    requires i < |b| && b[i] != UNDERSCORE && !BeginsWord(b, i)
    ensures WordsTo(b, i) != []
  {
    hide WordsTo;
  }

  /** Where the second part's first byte begins no word, the two parts share one. */
  lemma {:induction false} GluedWords(s: Bytes, b: Bytes, n: nat)
    requires 0 < n <= |b| && b[0] != UNDERSCORE && !BeginsWord(s + b, |s|)
    ensures |WordsTo(s + b, |s| + n)| == |WordsTo(s + b, |s|)| + |WordsTo(b, n)| - 1
  {
    hide WordsTo;
    assert (s + b)[|s| + n - 1] == b[n - 1];
    if b[n - 1] == UNDERSCORE {
      GluedWords(s, b, n - 1);
      WordsStay(s + b, |s| + n);
      WordsStay(b, n);
    } else {
      WordsGrow(s + b, |s| + n);
      WordsGrow(b, n);
      if n > 1 {
        GluedWords(s, b, n - 1);
        BeginsLater(s, b, n - 1);
      } else {
        NoWords(b);
      }
    }
  }

  /** An underscore parts the words before it from those after it. */
  lemma UnderscoreParts(a: Bytes, b: Bytes)
    ensures Words(a + (['_' as int] + b)) == Words(a) + Words(b)
  {
    hide WordsTo;
    var s, rest := a + [UNDERSCORE], [UNDERSCORE] + b;
    assert a + rest == s + b && s[|s| - 1] == UNDERSCORE;
    BeginningAlike(s, b);
    SuffixWords(s, b, |b|);
    WordsStay(s + b, |s|);
    PrefixWords(a, rest, |a|);
  }

  /** Between two bytes that are not underscores, the words part at a capital, and only at
      one: after a small letter, a digit or a byte beyond ASCII always; after a capital if a
      small letter or a byte beyond ASCII comes next. */
  predicate PartsBetween(a: Bytes, b: Bytes)
    requires a != [] && b != []
  {
    var before := a[|a| - 1];
    && Capital(b[0])
    && (|| Small(before) || BeyondAscii(before) || Digit(before)
        || (Capital(before) && |b| > 1 && (Small(b[1]) || BeyondAscii(b[1]))))
  }

  lemma PartsAt(a: Bytes, b: Bytes)
    requires a != [] && b != [] && a[|a| - 1] != '_' as int && b[0] != '_' as int && !Small(b[0]) && !BeyondAscii(b[0])
    ensures PartsBetween(a, b) ==> Words(a + b) == Words(a) + Words(b)
    ensures !PartsBetween(a, b) ==> |Words(a + b)| == |Words(a)| + |Words(b)| - 1
  {
    hide WordsTo;
    PrefixWords(a, b, |a|);
    assert BeginsWord(a + b, |a|) == PartsBetween(a, b);
    if PartsBetween(a, b) {
      BeginningAlike(a, b);
      SuffixWords(a, b, |b|);
    } else {
      GluedWords(a, b, |b|);
    }
  }

  /** In a name without underscores every word but the first begins with a capital. */
  lemma {:induction false} LaterWordsAreCapital(b: Bytes, n: nat)
    requires n <= |b| && forall i | 0 <= i < |b| :: b[i] != '_' as int
    ensures forall k | 1 <= k < |WordsTo(b, n)| :: WordsTo(b, n)[k] != [] && Capital(WordsTo(b, n)[k][0])
  {
    if n > 0 { LaterWordsAreCapital(b, n - 1); }
  }

  /** No capital but the first letter, and no underscore: one word. */
  lemma {:induction false} OneWord(w: Bytes, n: nat)
    requires 0 < n <= |w| && w[0] != '_' as int && forall i | 1 <= i < |w| :: !Capital(w[i]) && w[i] != '_' as int
    ensures WordsTo(w, n) == [w[..n]]
  {
    hide WordsTo;
    WordsGrow(w, n);
    assert w[..n] == w[..n - 1] + [w[n - 1]];
    if n > 1 {
      OneWord(w, n - 1);
    } else {
      NoWords(w);
      assert w[..n] == [w[0]];
    }
  }

  /** A run of capitals is one word, and before a small letter only its last begins the next. */
  lemma {:induction false} RunOfCapitals(run: Bytes, rest: Bytes)
    requires run != [] && forall i | 0 <= i < |run| :: Capital(run[i])
    ensures Words(run) == [run]
    ensures |rest| > 1 && Capital(rest[0]) && (Small(rest[1]) || BeyondAscii(rest[1])) ==>
              Words(run + rest) == [run] + Words(rest)
  {
    RunIsWord(run, |run|);
    assert run[..|run|] == run;
    if |rest| > 1 && Capital(rest[0]) && (Small(rest[1]) || BeyondAscii(rest[1])) {
      PartsAt(run, rest);
    }
  }

  lemma {:induction false} RunIsWord(run: Bytes, n: nat)
    requires 0 < n <= |run| && forall i | 0 <= i < |run| :: Capital(run[i])
    ensures WordsTo(run, n) == [run[..n]]
  {
    hide WordsTo;
    WordsGrow(run, n);
    assert run[..n] == run[..n - 1] + [run[n - 1]];
    if n > 1 {
      RunIsWord(run, n - 1);
    } else {
      NoWords(run);
      assert run[..n] == [run[0]];
    }
  }

  // ---------------------------------------------------------------------
  // From PascalCase and camelCase back to the words
  // ---------------------------------------------------------------------

  /** A small letter and then small letters, digits and bytes beyond ASCII. */
  predicate PlainWord(w: Bytes) {
    w != [] && Small(w[0]) && forall j | 0 <= j < |w| :: Small(w[j]) || Digit(w[j]) || BeyondAscii(w[j])
  }

  predicate PlainWords(ws: seq<Bytes>) {
    forall i | 0 <= i < |ws| :: PlainWord(ws[i])
  }

  /** A word of one letter stands out from the word after it only if that goes on with a
      letter. */
  predicate StandsOut(w: Bytes, next: Bytes) {
    |w| > 1 || (|next| > 1 && !Digit(next[1]))
  }

  lemma PlainTitle(w: Bytes)
    requires PlainWord(w)
    ensures var t := Respelled(w, Title);
            && |t| == |w| && Capital(t[0]) && Words(t) == [t]
            && forall j | 1 <= j < |t| :: t[j] == w[j]
  {
    var t := Respelled(w, Title);
    assert forall j | 1 <= j < |t| :: t[j] == w[j];
    OneWord(t, |t|);
    assert t[..|t|] == t;
  }

  /** The first word spelled with a capital. */
  function FirstTitle(style: Style): nat { if style == Pascal then 0 else 1 }

  /** Whether every word spelled with a capital stands out from the next. */
  predicate AllStandOut(ws: seq<Bytes>, style: Style) {
    forall i | FirstTitle(style) <= i < |ws| - 1 :: StandsOut(ws[i], ws[i + 1])
  }

  lemma PlainLow(w: Bytes)
    requires PlainWord(w)
    ensures Respelled(w, Low) == w && Words(w) == [w]
  {
    OneWord(w, |w|);
    assert w[..|w|] == w;
  }

  lemma LastByte(ws: seq<Bytes>, style: Style)
    requires ws != [] && PlainWords(ws) && style in {Pascal, Camel}
    ensures var s, w := Spelled(ws, style), ws[|ws| - 1];
            && s != [] && |s| >= |w|
            && (if |w| > 1 || |ws| <= FirstTitle(style) then s[|s| - 1] == w[|w| - 1] else Capital(s[|s| - 1]))
  {
    var w := ws[|ws| - 1];
    PlainTitle(w);
  }

  lemma PartsMore(init: seq<Bytes>, w: Bytes, style: Style)
    requires init != [] && style in {Pascal, Camel}
    ensures Parts(init + [w], style) == Parts(init, style) + [Respelled(w, Title)]
    ensures AllStandOut(init + [w], style) <==>
            AllStandOut(init, style) && (|init| <= FirstTitle(style) || StandsOut(init[|init| - 1], w))
  {
    hide StandsOut;
    var ws := init + [w];
    assert ws[|init| - 1] == init[|init| - 1] && ws[|init|] == w;
  }

  /** Splitting the spelling gives the words back exactly when every word stands out, and
      otherwise fewer. */
  ghost predicate SplitsBack(ws: seq<Bytes>, style: Style) {
    var back := Words(Spelled(ws, style));
    if AllStandOut(ws, style) then back == Parts(ws, style) else |back| < |ws|
  }

  /** Converting to PascalCase or camelCase loses no word exactly when every word spelled with
      a capital stands out: only then is the name split into the same words again. */
  lemma {:induction false} TitledWords(ws: seq<Bytes>, style: Style)
    requires PlainWords(ws) && style in {Pascal, Camel}
    ensures SplitsBack(ws, style)
  {
    hide *;
    if |ws| <= 1 {
      FewWords(ws, style);
    } else {
      var init, w := ws[..|ws| - 1], ws[|ws| - 1];
      assert ws == init + [w];
      InitPlain(init, w);
      TitledWords(init, style);
      SplitsBackMore(init, w, style);
    }
  }

  lemma InitPlain(init: seq<Bytes>, w: Bytes)
    requires PlainWords(init + [w])
    ensures PlainWords(init) && PlainWord(w)
  {
    hide PlainWord;
    assert (init + [w])[|init|] == w;
    assert forall i | 0 <= i < |init| :: (init + [w])[i] == init[i];
  }

  lemma FewWords(ws: seq<Bytes>, style: Style)
    requires |ws| <= 1 && PlainWords(ws) && style in {Pascal, Camel}
    ensures SplitsBack(ws, style)
  {
    hide WordsTo, Respelled;
    if ws == [] {
      NoWords([]);
    } else {
      PlainTitle(ws[0]);
      PlainLow(ws[0]);
    }
  }

  lemma SplitsBackMore(init: seq<Bytes>, w: Bytes, style: Style)
    requires init != [] && PlainWords(init) && PlainWord(w) && style in {Pascal, Camel} && SplitsBack(init, style)
    ensures SplitsBack(init + [w], style)
  {
    hide WordsTo, Words, Respelled, Spelled, PlainWord, PlainWords, StandsOut, AllStandOut;
    NextTitle(init, w, style);
    PartsMore(init, w, style);
  }

  lemma NextTitle(init: seq<Bytes>, w: Bytes, style: Style)
    requires init != [] && PlainWords(init) && PlainWord(w) && style in {Pascal, Camel}
    ensures Spelled(init + [w], style) == Spelled(init, style) + Respelled(w, Title)
    ensures var s, t := Spelled(init, style), Respelled(w, Title);
            if |init| <= FirstTitle(style) || StandsOut(init[|init| - 1], w) then Words(s + t) == Words(s) + [t]
            else |Words(s + t)| == |Words(s)|
  {
    hide WordsTo;
    var s, t := Spelled(init, style), Respelled(w, Title);
    assert (init + [w])[..|init|] == init;
    PlainTitle(w);
    LastByte(init, style);
    PartsAt(s, t);
  }

  // ---------------------------------------------------------------------
  // Valid text stays valid
  // ---------------------------------------------------------------------

  /** `t` is `s` and then perhaps a separator. */
  ghost predicate PerhapsParted(s: Bytes, t: Bytes, style: Style) {
    t == s || t == s + Separator(style)
  }

  /** Bytes beyond ASCII are copied together, with nothing between them. */
  lemma {:induction false} BeyondCopied(b: Bytes, i: nat, k: nat, style: Style) returns (t: Bytes)
    requires i + k <= |b| && k > 0 && forall j | i <= j < i + k :: BeyondAscii(b[j])
    ensures PerhapsParted(Spelled(WordsTo(b, i), style), t, style)
    ensures Spelled(WordsTo(b, i + k), style) == t + b[i..i + k]
    decreases k
  {
    hide Spelled, WordsTo;
    WordStep(b, i + k - 1, style);
    assert b[i..i + k] == b[i..i + k - 1] + [b[i + k - 1]];
    if k > 1 {
      t := BeyondCopied(b, i, k - 1, style);
    } else {
      t := Spelled(WordsTo(b, i), style)
           + if BeginsWord(b, i) && WordsTo(b, i) != [] then Separator(style) else [];
    }
  }

  lemma AsciiIsValid(b: Bytes)
    requires |b| <= 1 && forall i | 0 <= i < |b| :: b[i] < 0x80
    ensures Wire.ValidUtf8(b)
  {
  }

  lemma PartedIsValid(s: Bytes, t: Bytes, style: Style)
    requires PerhapsParted(s, t, style) && Wire.ValidUtf8(s)
    ensures Wire.ValidUtf8(t)
  {
    AsciiIsValid(Separator(style));
    ValidAppends(s, Separator(style));
  }

  lemma AsciiStaysValid(b: Bytes, i: nat, style: Style)
    requires i < |b| && b[i] < 0x80 && Wire.ValidUtf8(Spelled(WordsTo(b, i), style))
    ensures Wire.ValidUtf8(Spelled(WordsTo(b, i + 1), style))
  {
    hide Spelled, WordsTo, Wire.ValidUtf8, Separator, BeginsWord;
    WordStep(b, i, style);
    if b[i] != UNDERSCORE {
      var s := Spelled(WordsTo(b, i), style);
      var t := s + if BeginsWord(b, i) && WordsTo(b, i) != [] then Separator(style) else [];
      PartedIsValid(s, t, style);
      var letter := Spelled(WordsTo(b, i + 1), style)[|t|..];
      AsciiIsValid(letter);
      ValidAppends(t, letter);
    }
  }

  /** Past the text before `i`, the scalar values `cs`. */
  lemma {:induction false} RestStaysValid(b: Bytes, i: nat, cs: seq<Scalar>, style: Style)
    requires i <= |b| && b[i..] == TextBytes(cs) && Wire.ValidUtf8(Spelled(WordsTo(b, i), style))
    ensures Wire.ValidUtf8(Spelled(WordsTo(b, |b|), style))
    decreases |cs|
  {
    hide Spelled, WordsTo, Wire.ValidUtf8, ScalarBytes;
    if cs != [] {
      var k := |ScalarBytes(cs[0])|;
      assert b[i + k..] == b[i..][k..] == TextBytes(cs[1..]);
      assert b[i..i + k] == b[i..][..k] == ScalarBytes(cs[0]);
      ScalarStaysValid(b, i, cs[0], style);
      RestStaysValid(b, i + k, cs[1..], style);
    }
  }

  lemma ScalarStaysValid(b: Bytes, i: nat, c: Scalar, style: Style)
    requires i + |ScalarBytes(c)| <= |b| && b[i..i + |ScalarBytes(c)|] == ScalarBytes(c)
    requires Wire.ValidUtf8(Spelled(WordsTo(b, i), style))
    ensures Wire.ValidUtf8(Spelled(WordsTo(b, i + |ScalarBytes(c)|), style))
  {
    hide Spelled, WordsTo, Wire.ValidUtf8, ScalarBytes;
    var k := |ScalarBytes(c)|;
    assert forall j | i <= j < i + k :: b[j] == b[i..i + k][j - i];
    ScalarKinds(c);
    if c < 0x80 {
      AsciiStaysValid(b, i, style);
    } else {
      var t := BeyondCopied(b, i, k, style);
      PartedIsValid(Spelled(WordsTo(b, i), style), t, style);
      ScalarIsValid(c);
      ValidAppends(t, ScalarBytes(c));
    }
  }

  lemma ScalarKinds(c: Scalar)
    ensures c < 0x80 ==> ScalarBytes(c) == [c]
    ensures c >= 0x80 ==> forall j | 0 <= j < |ScalarBytes(c)| :: BeyondAscii(ScalarBytes(c)[j])
  {
  }

  lemma ScalarIsValid(c: Scalar)
    ensures Wire.ValidUtf8(ScalarBytes(c))
  {
    ScalarThen(c, []);
    assert ScalarBytes(c) + [] == ScalarBytes(c);
  }

  /** A name that is valid UTF-8 converts to valid UTF-8. */
  lemma StaysUtf8(name: Bytes, style: Style)
    requires Wire.ValidUtf8(name)
    ensures Wire.ValidUtf8(Converted(name, style))
  {
    var cs := ValidIsText(name);
    NothingYet(name, style);
    assert name[0..] == name;
    RestStaysValid(name, 0, cs, style);
  }
}
