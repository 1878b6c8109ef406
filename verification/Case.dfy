/** Case conversion of keys and variant names: src/case.rs. A name is split into words and
    the words are respelled. */
module Cases {
  import opened Bits
  import opened Wrappers

  type Bytes = seq<u8>

  datatype Style = Lower | Upper | Pascal | Camel | Snake | ScreamingSnake | Kebab | ScreamingKebab {
    /** What stands between words. */
    function Sep(): Option<u8> {
      match this
      case Snake | ScreamingSnake => Some(UNDERSCORE)
      case Kebab | ScreamingKebab => Some(HYPHEN)
      case _ => None
    }

    function First(): Spelling {
      if this == Camel then Low else Rest()
    }

    function Rest(): Spelling {
      match this
      case Lower | Snake | Kebab => Low
      case Upper | ScreamingSnake | ScreamingKebab => Up
      case Pascal | Camel => Title
    }
  }

  /** How one word is spelled; `Title` is its first letter up and the rest down. */
  datatype Spelling = Low | Up | Title

  const UNDERSCORE: u8 := '_' as int
  const HYPHEN: u8 := '-' as int

  predicate IsUpper(b: u8) { 'A' as int <= b <= 'Z' as int }
  predicate IsLower(b: u8) { 'a' as int <= b <= 'z' as int }
  predicate IsDigit(b: u8) { '0' as int <= b <= '9' as int }

  function ToLower(b: u8): u8 { if IsUpper(b) then b + 32 else b }
  function ToUpper(b: u8): u8 { if IsLower(b) then b - 32 else b }

  /** The body of a word rather than the start of one. */
  predicate LowerLike(b: u8) { IsLower(b) || b >= 0x80 }

  // ---------------------------------------------------------------------
  // Words
  // ---------------------------------------------------------------------

  /** The byte at `i` begins a word: nothing or an underscore is before it, or it is a capital
      after a lower-case letter or a digit, or the last capital of a run. */
  predicate BeginsWord(b: Bytes, i: nat)
    requires i < |b| && b[i] != UNDERSCORE
  {
    || i == 0
    || b[i - 1] == UNDERSCORE
    || (&& IsUpper(b[i])
        && (|| LowerLike(b[i - 1]) || IsDigit(b[i - 1])
            || (IsUpper(b[i - 1]) && i + 1 < |b| && LowerLike(b[i + 1]))))
  }

  /** The words of the first `n` bytes of `b`. */
  function WordsTo(b: Bytes, n: nat): (ws: seq<Bytes>)
    requires n <= |b|
    ensures n > 0 && b[n - 1] != UNDERSCORE ==> ws != []
    ensures forall i | 0 <= i < |ws| :: ws[i] != [] && UNDERSCORE !in ws[i]
  {
    if n == 0 then []
    else
      var ws := WordsTo(b, n - 1);
      if b[n - 1] == UNDERSCORE then ws
      else if BeginsWord(b, n - 1) then ws + [[b[n - 1]]]
      else ws[..|ws| - 1] + [ws[|ws| - 1] + [b[n - 1]]]
  }

  function Words(b: Bytes): seq<Bytes> {
    WordsTo(b, |b|)
  }

  // ---------------------------------------------------------------------
  // Spelling
  // ---------------------------------------------------------------------

  function Letter(b: u8, s: Spelling, starts: bool): u8 {
    if s == Up || (s == Title && starts) then ToUpper(b) else ToLower(b)
  }

  function Respelled(w: Bytes, s: Spelling): (r: Bytes)
    ensures |r| == |w|
  {
    seq(|w|, i requires 0 <= i < |w| => Letter(w[i], s, i == 0))
  }

  function Separator(style: Style): Bytes {
    match style.Sep() case Some(b) => [b] case None => []
  }

  /** The words joined in a style. */
  function Spelled(ws: seq<Bytes>, style: Style): Bytes {
    if ws == [] then []
    else if |ws| == 1 then Respelled(ws[0], style.First())
    else Spelled(ws[..|ws| - 1], style) + Separator(style) + Respelled(ws[|ws| - 1], style.Rest())
  }

  /** A name converted to a style. */
  function Converted(name: Bytes, style: Style): Bytes {
    Spelled(Words(name), style)
  }

  lemma SpelledLonger(ws: seq<Bytes>, w: Bytes, c: u8, style: Style)
    requires w != []
    ensures Spelled(ws + [w + [c]], style)
            == Spelled(ws + [w], style) + [Letter(c, if ws == [] then style.First() else style.Rest(), false)]
  {
    var s := if ws == [] then style.First() else style.Rest();
    var long, short := ws + [w + [c]], ws + [w];
    assert Respelled(w + [c], s) == Respelled(w, s) + [Letter(c, s, false)];
    assert long[..|ws|] == ws && short[..|ws|] == ws;
  }

  lemma SpelledMore(ws: seq<Bytes>, c: u8, style: Style)
    ensures Spelled(ws + [[c]], style)
            == Spelled(ws, style) + (if ws == [] then [] else Separator(style))
               + [Letter(c, if ws == [] then style.First() else style.Rest(), true)]
  {
    var s := if ws == [] then style.First() else style.Rest();
    assert Respelled([c], s) == [Letter(c, s, true)];
    assert (ws + [[c]])[..|ws|] == ws;
  }

  // ---------------------------------------------------------------------
  // Measuring
  // ---------------------------------------------------------------------

  function Kept(b: Bytes, n: nat): nat
    requires n <= |b|
  {
    if n == 0 then 0 else Kept(b, n - 1) + if b[n - 1] == UNDERSCORE then 0 else 1
  }

  function Letters(ws: seq<Bytes>): nat {
    if ws == [] then 0 else Letters(ws[..|ws| - 1]) + |ws[|ws| - 1]|
  }

  lemma LettersAppend(ws: seq<Bytes>, w: Bytes)
    ensures Letters(ws + [w]) == Letters(ws) + |w|
  {
    assert (ws + [w])[..|ws|] == ws;
  }

  /** Every byte but an underscore is in exactly one word. */
  lemma {:induction false} KeptIsLetters(b: Bytes, n: nat)
    requires n <= |b|
    ensures Letters(WordsTo(b, n)) == Kept(b, n)
  {
    if n > 0 {
      KeptIsLetters(b, n - 1);
      var ws := WordsTo(b, n - 1);
      if b[n - 1] != UNDERSCORE {
        if BeginsWord(b, n - 1) {
          LettersAppend(ws, [b[n - 1]]);
        } else {
          var init, last := ws[..|ws| - 1], ws[|ws| - 1];
          assert ws == init + [last];
          LettersAppend(init, last);
          LettersAppend(init, last + [b[n - 1]]);
        }
      }
    }
  }

  lemma {:induction false} SpelledLength(ws: seq<Bytes>, style: Style)
    requires ws != []
    ensures |Spelled(ws, style)| == Letters(ws) + |Separator(style)| * (|ws| - 1)
  {
    if |ws| > 1 {
      var init := ws[..|ws| - 1];
      SpelledLength(init, style);
      Times(|Separator(style)|, |init|);
      hide Separator;
    } else {
      assert ws[..0] == [];
    }
  }

  lemma Times(a: nat, n: nat)
    requires n > 0
    ensures a * n == a * (n - 1) + a
  {
  }

  // ---------------------------------------------------------------------
  // The loops
  // ---------------------------------------------------------------------

  method StartsWord(b: Bytes, i: nat) returns (starts: bool)
    requires i < |b| && b[i] != UNDERSCORE
    ensures starts == BeginsWord(b, i)
  {
    var j := i;
    while j > 0
      invariant 0 <= j <= i && forall k | j <= k < i :: b[k] == UNDERSCORE
    {
      j := j - 1;
      if b[j] != UNDERSCORE {
        if j + 1 != i { return true; }
        if !IsUpper(b[i]) { return false; }
        if LowerLike(b[j]) || IsDigit(b[j]) { return true; }
        if IsUpper(b[j]) { return i + 1 < |b| && LowerLike(b[i + 1]); }
        return false;
      }
    }
    return true;
  }

  /** How many words the name holds. */
  method CountWords(b: Bytes) returns (n: nat)
    ensures n == |Words(b)|
  {
    var i := 0;
    n := 0;
    while i < |b|
      invariant 0 <= i <= |b| && n == |WordsTo(b, i)|
    {
      if b[i] != UNDERSCORE {
        var starts := StartsWord(b, i);
        if starts { n := n + 1; }
      }
      i := i + 1;
    }
  }

  /** The length of `name` converted to `style`, or nothing if the name is only underscores. */
  method CasedLen(name: Bytes, style: Style) returns (r: Option<nat>)
    ensures r == if Words(name) == [] then None else Some(|Converted(name, style)|)
  {
    hide WordsTo, Spelled, Letters;
    var kept, i := 0, 0;
    while i < |name|
      invariant 0 <= i <= |name| && kept == Kept(name, i)
    {
      if name[i] != UNDERSCORE { kept := kept + 1; }
      i := i + 1;
    }
    var words := CountWords(name);
    if words == 0 { return None; }
    KeptIsLetters(name, |name|);
    SpelledLength(Words(name), style);
    return Some(if style.Sep().Some? then kept + words - 1 else kept);
  }

  /** Write `name` converted to `style` into `out`, and answer how many bytes that took. */
  method WriteCased(name: Bytes, style: Style, out: array<u8>) returns (o: nat)
    requires |Converted(name, style)| <= out.Length
    modifies out
    ensures o == |Converted(name, style)| && out[..o] == Converted(name, style)
    ensures out[o..] == old(out[o..])
  {
    hide WordsTo, Spelled;
    var i, written := 0, 0;
    o := 0;
    ghost var before := out[..];
    NothingYet(name, style);
    while i < |name|
      invariant 0 <= i <= |name| && written == |WordsTo(name, i)|
      invariant o == |Spelled(WordsTo(name, i), style)| <= out.Length && out[..o] == Spelled(WordsTo(name, i), style)
      invariant forall k | o <= k < out.Length :: out[k] == before[k]
    {
      ConvertedGrows(name, i + 1, style);
      o, written := WriteByte(name, i, style, out, o, written);
      i := i + 1;
    }
  }

  lemma NothingYet(name: Bytes, style: Style)
    ensures WordsTo(name, 0) == [] && Spelled(WordsTo(name, 0), style) == []
  {
  }

  /** One byte of the name: a letter, after a separator if it begins a word that is not the
      first; or nothing, if it is an underscore. */
  method WriteByte(name: Bytes, i: nat, style: Style, out: array<u8>, o: nat, written: nat) returns (end: nat, now: nat)
    requires i < |name| && written == |WordsTo(name, i)|
    requires |Spelled(WordsTo(name, i + 1), style)| <= out.Length
    requires o == |Spelled(WordsTo(name, i), style)| <= out.Length && out[..o] == Spelled(WordsTo(name, i), style)
    modifies out
    ensures now == |WordsTo(name, i + 1)|
    ensures end == |Spelled(WordsTo(name, i + 1), style)| && out[..end] == Spelled(WordsTo(name, i + 1), style)
    ensures o <= end && forall k | end <= k < out.Length :: out[k] == old(out[k])
  {
    hide Respelled, BeginsWord, Letter, Spelled, WordsTo, Separator;
    WordStep(name, i, style);
    if name[i] == UNDERSCORE { return o, written; }
    var starts := StartsWord(name, i);
    now := if starts then written + 1 else written;
    var letter := Letter(name[i], if now == 1 then style.First() else style.Rest(), starts);
    SeparatorIs(style);
    end := WriteLetter(out, o, if starts && written > 0 then style.Sep() else None, letter);
  }

  lemma SeparatorIs(style: Style)
    ensures Separator(style) == OptionalByte(style.Sep())
  {
  }

  function OptionalByte(b: Option<u8>): Bytes {
    match b case Some(c) => [c] case None => []
  }

  method WriteLetter(out: array<u8>, o: nat, sep: Option<u8>, letter: u8) returns (end: nat)
    requires o + |OptionalByte(sep)| + 1 <= out.Length
    modifies out
    ensures end == o + |OptionalByte(sep)| + 1
    ensures out[..end] == old(out[..o]) + OptionalByte(sep) + [letter]
    ensures forall k | end <= k < out.Length :: out[k] == old(out[k])
  {
    end := o;
    if sep.Some? {
      out[end] := sep.value;
      end := end + 1;
    }
    out[end] := letter;
    end := end + 1;
  }

  /** What one more byte of the name adds to its conversion. */
  lemma WordStep(b: Bytes, i: nat, style: Style)
    requires i < |b|
    ensures b[i] == UNDERSCORE ==> WordsTo(b, i + 1) == WordsTo(b, i)
    ensures b[i] != UNDERSCORE ==>
              var ws, starts := WordsTo(b, i), BeginsWord(b, i);
              && |WordsTo(b, i + 1)| == |ws| + (if starts then 1 else 0)
              && Spelled(WordsTo(b, i + 1), style)
                 == Spelled(ws, style) + (if starts && ws != [] then Separator(style) else [])
                    + [Letter(b[i], if |WordsTo(b, i + 1)| == 1 then style.First() else style.Rest(), starts)]
  {
    var ws := WordsTo(b, i);
    if b[i] == UNDERSCORE {
    } else if BeginsWord(b, i) {
      SpelledMore(ws, b[i], style);
    } else {
      var init, last := ws[..|ws| - 1], ws[|ws| - 1];
      assert ws == init + [last];
      SpelledLonger(init, last, b[i], style);
    }
  }

  lemma {:induction false} ConvertedGrows(b: Bytes, i: nat, style: Style)
    requires i <= |b|
    ensures |Spelled(WordsTo(b, i), style)| <= |Converted(b, style)|
    decreases |b| - i
  {
    hide Spelled, Letter;
    if i < |b| {
      ConvertedGrows(b, i + 1, style);
      WordStep(b, i, style);
    }
  }

  // ---------------------------------------------------------------------
  // The snake_case form is a normal form
  // ---------------------------------------------------------------------

  /** No capital and no underscore. */
  predicate IsPlain(w: Bytes) {
    forall i | 0 <= i < |w| :: !IsUpper(w[i]) && w[i] != UNDERSCORE
  }

  predicate NoCapital(b: Bytes) {
    forall i | 0 <= i < |b| :: !IsUpper(b[i])
  }

  /** Without capitals, a name's words are read off it left to right. */
  lemma {:induction false} WordsOfPrefix(a: Bytes, b: Bytes, n: nat)
    requires n <= |a| && NoCapital(a) && NoCapital(a + b)
    ensures WordsTo(a + b, n) == WordsTo(a, n)
  {
    hide BeginsWord, NoCapital;
    if n > 0 {
      WordsOfPrefix(a, b, n - 1);
      assert (a + b)[n - 1] == a[n - 1] && (n > 1 ==> (a + b)[n - 2] == a[n - 2]);
      if a[n - 1] != UNDERSCORE {
        PlainBegins(a, n - 1);
        PlainBegins(a + b, n - 1);
      }
    }
  }

  lemma PlainBegins(b: Bytes, i: nat)
    requires NoCapital(b) && i < |b| && b[i] != UNDERSCORE
    ensures BeginsWord(b, i) <==> i == 0 || b[i - 1] == UNDERSCORE
  {
  }

  lemma {:induction false} WordAppended(s: Bytes, w: Bytes)
    requires NoCapital(s) && (s == [] || s[|s| - 1] == UNDERSCORE) && w != [] && IsPlain(w)
    ensures NoCapital(s + w) && Words(s + w) == Words(s) + [w]
    decreases |w|
  {
    var init, c := w[..|w| - 1], w[|w| - 1];
    assert NoCapital(s + w);
    if init == [] {
      WordBegun(s, c);
      assert w == [c];
    } else {
      WordAppended(s, init);
      WordContinued(s + init, Words(s), init, c);
      assert s + w == (s + init) + [c] && init + [c] == w;
    }
  }

  lemma WordBegun(s: Bytes, c: u8)
    requires NoCapital(s + [c]) && NoCapital(s) && (s == [] || s[|s| - 1] == UNDERSCORE) && c != UNDERSCORE
    ensures Words(s + [c]) == Words(s) + [[c]]
  {
    WordsOfPrefix(s, [c], |s|);
  }

  lemma WordContinued(s: Bytes, ws: seq<Bytes>, last: Bytes, c: u8)
    requires NoCapital(s + [c]) && NoCapital(s) && s != [] && s[|s| - 1] != UNDERSCORE && c != UNDERSCORE
    requires Words(s) == ws + [last]
    ensures Words(s + [c]) == ws + [last + [c]]
  {
    WordsOfPrefix(s, [c], |s|);
    PlainBegins(s + [c], |s|);
    hide BeginsWord, NoCapital;
    assert (ws + [last])[..|ws|] == ws;
  }

  lemma UnderscoreAppended(s: Bytes)
    requires NoCapital(s)
    ensures NoCapital(s + [UNDERSCORE]) && Words(s + [UNDERSCORE]) == Words(s)
  {
    WordsOfPrefix(s, [UNDERSCORE], |s|);
  }

  function Lowered(ws: seq<Bytes>): (r: seq<Bytes>)
    ensures |r| == |ws|
  {
    seq(|ws|, i requires 0 <= i < |ws| => Respelled(ws[i], Low))
  }

  /** The words of a snake_case spelling are the words it was spelled from, lowered. */
  lemma {:induction false} SnakeWords(ws: seq<Bytes>)
    requires forall i | 0 <= i < |ws| :: ws[i] != [] && UNDERSCORE !in ws[i]
    ensures NoCapital(Spelled(ws, Snake)) && Words(Spelled(ws, Snake)) == Lowered(ws)
  {
    if ws != [] {
      var init, w := ws[..|ws| - 1], Respelled(ws[|ws| - 1], Low);
      var s := Spelled(init, Snake);
      SnakeWords(init);
      assert IsPlain(w) by {
        var last := ws[|ws| - 1];
        forall i | 0 <= i < |w| ensures !IsUpper(w[i]) && w[i] != UNDERSCORE { assert last[i] in last; }
      }
      assert Lowered(ws) == Lowered(init) + [w];
      if init == [] {
        WordAppended([], w);
        assert Spelled(ws, Snake) == [] + w;
      } else {
        UnderscoreAppended(s);
        WordAppended(s + [UNDERSCORE], w);
        assert Spelled(ws, Snake) == (s + [UNDERSCORE]) + w;
      }
    }
  }

  /** Lowering words first changes no spelling of them. */
  lemma {:induction false} LoweredSpellsAlike(ws: seq<Bytes>, style: Style)
    ensures Spelled(Lowered(ws), style) == Spelled(ws, style)
  {
    if ws != [] {
      var init, w := ws[..|ws| - 1], ws[|ws| - 1];
      LoweredSpellsAlike(init, style);
      assert Lowered(ws)[..|ws| - 1] == Lowered(init);
      assert Respelled(Respelled(w, Low), style.First()) == Respelled(w, style.First());
      assert Respelled(Respelled(w, Low), style.Rest()) == Respelled(w, style.Rest());
    }
  }

  /** Converting a name's snake_case form to any style is converting the name. */
  lemma SnakeIsNormalForm(name: Bytes, style: Style)
    ensures Converted(Converted(name, Snake), style) == Converted(name, style)
  {
    SnakeWords(Words(name));
    LoweredSpellsAlike(Words(name), style);
  }
}
