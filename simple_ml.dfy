/** transactions_ml_model/simple_ml_categorizer.py without scikit-learn:
    the text normaliser `clean_text`, the keyword rule `suggest_category`,
    the text `prepare_data` builds, and the training state of
    `SimpleTransactionCategorizer` that guards prediction and saving. */
module SimpleMl {
  import opened Text
  import opened Options
  import opened Keywords
  import opened Frames
  import opened Seqs

  // ---------------------------------------------------------------------
  // clean_text

  /** The letters the pattern `[^a-ząćęłńóśźż\s]` keeps. */
  predicate Letter(c: char) {
    || 'a' <= c <= 'z'
    || c == 'ą' || c == 'ć' || c == 'ę' || c == 'ł' || c == 'ń'
    || c == 'ó' || c == 'ś' || c == 'ź' || c == 'ż'
  }

  /** `re.sub(r'[^a-ząćęłńóśźż\s]', ' ', text)`: everything that is neither
      a kept letter nor whitespace becomes a space. */
  function Scrub(s: string): (r: string)
    ensures |r| == |s|
    ensures forall i :: 0 <= i < |s| ==> r[i] == (if Letter(s[i]) || IsSpace(s[i]) then s[i] else ' ')
  {
    seq(|s|, i requires 0 <= i < |s| => if Letter(s[i]) || IsSpace(s[i]) then s[i] else ' ')
  }

  /** Scrubbed text holds only kept letters and whitespace; the kept
      characters stay where they were, and scrubbing again changes nothing. */
  lemma ScrubSpec(s: string)
    ensures forall i :: 0 <= i < |s| ==> Letter(Scrub(s)[i]) || IsSpace(Scrub(s)[i])
    ensures forall i :: 0 <= i < |s| && (Letter(s[i]) || IsSpace(s[i])) ==> Scrub(s)[i] == s[i]
    ensures Scrub(Scrub(s)) == Scrub(s)
  {
  }

  /** `re.sub(r'\s+', ' ', text)`: every run of whitespace becomes one space. */
  function Squeeze(s: string): string
    decreases |s|
  {
    if s == [] then []
    else if IsSpace(s[0]) then [' '] + Squeeze(TrimStart(s[1..]))
    else [s[0]] + Squeeze(s[1..])
  }

  /** What the substitution promises: only single spaces and characters of
      the input that are not whitespace, and a run at the front becomes a
      space at the front. */
  lemma SqueezeSpec(s: string)
    ensures forall i :: 0 <= i < |Squeeze(s)| ==> Squeeze(s)[i] == ' ' || (!IsSpace(Squeeze(s)[i]) && Squeeze(s)[i] in s)
    ensures forall i :: 0 <= i < |Squeeze(s)| - 1 ==> !(Squeeze(s)[i] == ' ' && Squeeze(s)[i + 1] == ' ')
    ensures s != [] ==> Squeeze(s) != [] && Squeeze(s)[0] == (if IsSpace(s[0]) then ' ' else s[0])
  {
    SqueezeChars(s);
    SqueezeSingleSpaces(s);
  }

  lemma {:induction false} SqueezeChars(s: string)
    ensures forall i :: 0 <= i < |Squeeze(s)| ==> Squeeze(s)[i] == ' ' || (!IsSpace(Squeeze(s)[i]) && Squeeze(s)[i] in s)
    decreases |s|
  {
    if s != [] {
      var tail := s[1..];
      if IsSpace(s[0]) {
        TrimStartSpec(tail);
        var rest := TrimStart(tail);
        SqueezeChars(rest);
        assert forall c :: c in rest ==> c in s;
      } else {
        SqueezeChars(tail);
        assert forall c :: c in tail ==> c in s;
      }
    }
  }

  lemma {:induction false} SqueezeSingleSpaces(s: string)
    ensures forall i :: 0 <= i < |Squeeze(s)| - 1 ==> !(Squeeze(s)[i] == ' ' && Squeeze(s)[i + 1] == ' ')
    decreases |s|
  {
    if s != [] {
      var tail := s[1..];
      if IsSpace(s[0]) {
        TrimStartSpec(tail);
        var rest := TrimStart(tail);
        SqueezeSingleSpaces(rest);
      } else {
        SqueezeSingleSpaces(tail);
      }
    }
  }

  /** Each run of whitespace becomes exactly one space: squeezing text
      with a run `w` between two pieces that do not touch it with
      whitespace of their own squeezes the pieces apart and puts one space
      between them. */
  lemma {:induction false} SqueezeRun(x: string, w: string, y: string)
    requires w != [] && IsBlank(w)
    requires x == [] || !IsSpace(x[|x| - 1])
    requires y == [] || !IsSpace(y[0])
    ensures Squeeze(x + w + y) == Squeeze(x) + " " + Squeeze(y)
    decreases |x|
  {
    if x == [] {
      assert x + w + y == w + y;
      SqueezeLeadingRun(w, y);
    } else {
      var rest := SqueezeFront(x, w, y);
      SqueezeRun(rest, w, y);
    }
  }

  /** The step of `SqueezeRun` for text with a non-empty front: the text
      left to squeeze after the first step of `Squeeze`. */
  lemma SqueezeFront(x: string, w: string, y: string) returns (rest: string)
    requires x != [] && !IsSpace(x[|x| - 1])
    ensures |rest| < |x| && (rest == [] || !IsSpace(rest[|rest| - 1]))
    ensures Squeeze(rest + w + y) == Squeeze(rest) + " " + Squeeze(y) ==>
      Squeeze(x + w + y) == Squeeze(x) + " " + Squeeze(y)
  {
    var z := w + y;
    var tail := x[1..];
    assert x + w + y == x + z;
    assert x + [] == x && tail + [] == tail;
    if tail != [] {
      assert tail[|tail| - 1] == x[|x| - 1];
    }
    if IsSpace(x[0]) {
      TrimStartAppend(tail, z);
      rest := TrimStart(tail);
      SqueezeSpaceStep(x, z);
      SqueezeSpaceStep(x, []);
    } else {
      rest := tail;
      SqueezeCharStep(x, z);
      SqueezeCharStep(x, []);
    }
    assert rest + z == rest + w + y;
    SqueezeJoin(Squeeze(x + z), Squeeze(x), Squeeze(x)[..1], Squeeze(rest), Squeeze(rest + z), Squeeze(y));
  }

  /** The algebra of one step of `SqueezeRun`. */
  lemma SqueezeJoin(sxz: string, sx: string, head: string, sr: string, srz: string, sy: string)
    requires sxz == head + srz && sx == head + sr
    ensures srz == sr + " " + sy ==> sxz == sx + " " + sy
  {
    Associative(head, sr + " ", sy);
    Associative(head, sr, " ");
  }

  /** A run of whitespace at the front becomes one space. */
  lemma SqueezeLeadingRun(w: string, y: string)
    requires w != [] && IsBlank(w)
    requires y == [] || !IsSpace(y[0])
    ensures Squeeze(w + y) == " " + Squeeze(y)
  {
    var s := w + y;
    assert s[0] == w[0];
    assert s[1..] == w[1..] + y;
    TrimStartBlankPrefix(w[1..], y);
  }

  /** One step of `Squeeze` at whitespace in front. */
  lemma SqueezeSpaceStep(x: string, z: string)
    requires x != [] && IsSpace(x[0])
    ensures Squeeze(x + z) == " " + Squeeze(TrimStart(x[1..] + z))
  {
    assert (x + z)[0] == x[0];
    assert (x + z)[1..] == x[1..] + z;
  }

  /** One step of `Squeeze` at a character that is not whitespace. */
  lemma SqueezeCharStep(x: string, z: string)
    requires x != [] && !IsSpace(x[0])
    ensures Squeeze(x + z) == [x[0]] + Squeeze(x[1..] + z)
  {
    assert (x + z)[0] == x[0];
    assert (x + z)[1..] == x[1..] + z;
  }

  /** `clean_text` (simple_ml_categorizer.py:61-75). */
  function CleanText(text: Cell): string {
    if text.NaN? || text.text == "" then ""
    else Strip(Squeeze(Scrub(LowerStr(text.text))))
  }

  /** The shape of a cleaned text: kept letters separated by single spaces,
      with no space at either end. */
  predicate CleanForm(s: string) {
    && (forall i :: 0 <= i < |s| ==> Letter(s[i]) || s[i] == ' ')
    && (forall i :: 0 <= i < |s| - 1 ==> !(s[i] == ' ' && s[i + 1] == ' '))
    && (s != [] ==> s[0] != ' ' && s[|s| - 1] != ' ')
  }

  /** Stripping text of letters and single spaces puts it in clean form. */
  lemma StripToForm(x: string)
    requires forall i :: 0 <= i < |x| ==> Letter(x[i]) || x[i] == ' '
    requires forall i :: 0 <= i < |x| - 1 ==> !(x[i] == ' ' && x[i + 1] == ' ')
    ensures CleanForm(Strip(x))
  {
    TrimStartSpec(x);
    var t := TrimStart(x);
    TrimEndSpec(t);
    var r := TrimEnd(t);
    var i := |x| - |t|;
    assert forall k :: 0 <= k < |r| ==> r[k] == t[k] == x[i + k];
    if r != [] {
      assert r[0] == t[0];
    }
  }

  /** Squeezing scrubbed text leaves only letters and single spaces. */
  lemma SqueezeScrubbed(s: string)
    ensures var q := Squeeze(Scrub(s)); forall i :: 0 <= i < |q| ==> Letter(q[i]) || q[i] == ' '
  {
    var scrubbed := Scrub(s);
    var q := Squeeze(scrubbed);
    SqueezeSpec(scrubbed);
    forall i | 0 <= i < |q| ensures Letter(q[i]) || q[i] == ' ' {
      if q[i] != ' ' {
        var k :| 0 <= k < |scrubbed| && scrubbed[k] == q[i];
      }
    }
  }

  /** Whatever the input, `clean_text` returns text of that shape. */
  lemma CleanTextForm(text: Cell)
    ensures CleanForm(CleanText(text))
  {
    if !(text.NaN? || text.text == "") {
      var lowered := LowerStr(text.text);
      SqueezeScrubbed(lowered);
      SqueezeSpec(Scrub(lowered));
      StripToForm(Squeeze(Scrub(lowered)));
    }
  }

  /** Lower-casing leaves the kept letters and the space alone. */
  lemma LowerKeeps(c: char)
    requires Letter(c) || c == ' '
    ensures Lower(c) == c
  {
  }

  /** Text without whitespace other than single spaces is its own squeeze. */
  lemma {:induction false} SqueezeFixed(s: string)
    requires forall i :: 0 <= i < |s| ==> IsSpace(s[i]) ==> s[i] == ' '
    requires forall i :: 0 <= i < |s| - 1 ==> !(s[i] == ' ' && s[i + 1] == ' ')
    ensures Squeeze(s) == s
    decreases |s|
  {
    if s != [] {
      var tail := s[1..];
      SqueezeFixed(tail);
      if IsSpace(s[0]) {
        assert TrimStart(tail) == tail by {
          if tail != [] {
            assert !IsSpace(tail[0]);
          }
        }
      }
    }
  }

  /** Text already in clean form is returned unchanged. */
  lemma CleanFormFixed(s: string)
    requires CleanForm(s)
    ensures CleanText(Str(s)) == s
  {
    if s != "" {
      forall i | 0 <= i < |s| ensures Lower(s[i]) == s[i] {
        LowerKeeps(s[i]);
      }
      assert LowerStr(s) == s;
      assert Scrub(s) == s;
      SqueezeFixed(s);
      StripUnchanged(s);
    }
  }

  /** `clean_text` is idempotent. */
  lemma CleanTextIdempotent(text: Cell)
    ensures CleanText(Str(CleanText(text))) == CleanText(text)
  {
    CleanTextForm(text);
    CleanFormFixed(CleanText(text));
  }

  /** Missing and empty input give `''`. */
  lemma CleanTextEmpty()
    ensures CleanText(NaN) == "" && CleanText(Str("")) == ""
  {
  }

  /** The kept letters of `s`, in order. */
  function Letters(s: string): string {
    if s == [] then [] else (if Letter(s[0]) then [s[0]] else []) + Letters(s[1..])
  }

  lemma {:induction false} LettersAppend(a: string, b: string)
    ensures Letters(a + b) == Letters(a) + Letters(b)
  {
    if a == [] {
      assert a + b == b;
    } else {
      var ab := a + b;
      var head: string := if Letter(a[0]) then [a[0]] else [];
      assert ab[0] == a[0];
      assert ab[1..] == a[1..] + b;
      LettersAppend(a[1..], b);
      Associative(head, Letters(a[1..]), Letters(b));
    }
  }

  lemma {:induction false} BlankHasNoLetters(s: string)
    requires IsBlank(s)
    ensures Letters(s) == []
  {
    if s != [] {
      BlankHasNoLetters(s[1..]);
    }
  }

  lemma {:induction false} ScrubKeepsLetters(s: string)
    ensures Letters(Scrub(s)) == Letters(s)
  {
    if s != [] {
      assert Scrub(s)[1..] == Scrub(s[1..]);
      ScrubKeepsLetters(s[1..]);
    }
  }

  lemma {:induction false} SqueezeKeepsLetters(s: string)
    ensures Letters(Squeeze(s)) == Letters(s)
    decreases |s|
  {
    if s != [] {
      if IsSpace(s[0]) {
        TrimStartSpec(s);
        var rest := TrimStart(s);
        assert rest == TrimStart(s[1..]);
        SqueezeKeepsLetters(rest);
        var cut := |s| - |rest|;
        assert s == s[..cut] + rest;
        LettersAppend(s[..cut], rest);
        BlankHasNoLetters(s[..cut]);
        LettersAppend([' '], Squeeze(rest));
      } else {
        SqueezeKeepsLetters(s[1..]);
        LettersAppend([s[0]], Squeeze(s[1..]));
      }
    }
  }

  lemma TrimStartKeepsLetters(s: string)
    ensures Letters(TrimStart(s)) == Letters(s)
  {
    TrimStartSpec(s);
    var t := TrimStart(s);
    var d := |s| - |t|;
    assert s == s[..d] + t;
    LettersAppend(s[..d], t);
    BlankHasNoLetters(s[..d]);
  }

  lemma TrimEndKeepsLetters(t: string)
    ensures Letters(TrimEnd(t)) == Letters(t)
  {
    TrimEndSpec(t);
    var r := TrimEnd(t);
    assert t == r + t[|r|..];
    LettersAppend(r, t[|r|..]);
    BlankHasNoLetters(t[|r|..]);
  }

  lemma StripKeepsLetters(s: string)
    ensures Letters(Strip(s)) == Letters(s)
  {
    TrimStartKeepsLetters(s);
    TrimEndKeepsLetters(TrimStart(s));
  }

  /** `clean_text` keeps every kept letter of the lowered input, in order,
      and drops everything else but single spaces. */
  lemma CleanTextKeepsLetters(s: string)
    ensures Letters(CleanText(Str(s))) == Letters(LowerStr(s))
  {
    var lowered := LowerStr(s);
    StripKeepsLetters(Squeeze(Scrub(lowered)));
    SqueezeKeepsLetters(Scrub(lowered));
    ScrubKeepsLetters(lowered);
  }

  // ---------------------------------------------------------------------
  // suggest_category

  /** The category name `suggest_category` falls back to. */
  const Other := "OTHER"

  /** `suggest_category` (simple_ml_categorizer.py:77-86) over the table
      the categoriser was built with. */
  function SuggestCategory(table: Table, description: Cell, nadawca: Cell, odbiorca: Cell, product: Cell): string {
    var lowered := LowerStr(CombinedText(Render(description), Render(nadawca), Render(odbiorca), Render(product)));
    match FirstMatch(table, lowered)
    case None => Other
    case Some(i) => table[i].name
  }

  /** The suggestion is the name of the first entry, in table order, with a
      keyword in the lowered text, or `OTHER` when no entry has one; without
      an entry of that name, `OTHER` means exactly that nothing matched. */
  lemma SuggestCategorySpec(table: Table, description: Cell, nadawca: Cell, odbiorca: Cell, product: Cell)
    ensures var r := SuggestCategory(table, description, nadawca, odbiorca, product);
      var lowered := LowerStr(CombinedText(Render(description), Render(nadawca), Render(odbiorca), Render(product)));
      && (forall i :: 0 <= i < |table| && EntryMatches(table[i], lowered) ==>
            (forall j :: 0 <= j < i ==> !EntryMatches(table[j], lowered)) ==> r == table[i].name)
      && ((forall j :: 0 <= j < |table| ==> !EntryMatches(table[j], lowered)) ==> r == Other)
      && ((forall j :: 0 <= j < |table| ==> table[j].name != Other) ==>
            (r == Other <==> forall j :: 0 <= j < |table| ==> !EntryMatches(table[j], lowered)))
  {
    var lowered := LowerStr(CombinedText(Render(description), Render(nadawca), Render(odbiorca), Render(product)));
    var m := FirstMatch(table, lowered);
    if m.Some? {
      assert SuggestCategory(table, description, nadawca, odbiorca, product) == table[m.value].name;
    }
  }

  // ---------------------------------------------------------------------
  // The text the model sees

  /** One transaction's four text columns. */
  datatype Transaction = Transaction(opis: Cell, nadawca: Cell, odbiorca: Cell, produkt: Cell)

  /** The text `predict` vectorises (simple_ml_categorizer.py:170): the four
      cleaned fields joined by single spaces, not stripped. */
  function PredictText(t: Transaction): string {
    CombinedText(CleanText(t.opis), CleanText(t.nadawca), CleanText(t.odbiorca), CleanText(t.produkt))
  }

  /** `combined_text` of `prepare_data` (simple_ml_categorizer.py:91-102):
      the same join, stripped. */
  function PreparedText(t: Transaction): string {
    Strip(PredictText(t))
  }

  /** When the first and last fields clean to something, `prepare_data`'s
      strip has nothing to remove, so training and prediction see the same
      text; that text is the four cleaned fields joined by single spaces. */
  lemma PreparedTextJoins(t: Transaction)
    requires CleanText(t.opis) != "" && CleanText(t.produkt) != ""
    ensures PreparedText(t) == PredictText(t)
    ensures PredictText(t) == CleanText(t.opis) + " " + CleanText(t.nadawca) + " " + CleanText(t.odbiorca) + " " + CleanText(t.produkt)
  {
    var x := PredictText(t);
    CleanTextForm(t.opis);
    CleanTextForm(t.produkt);
    assert x[0] == CleanText(t.opis)[0];
    assert x[|x| - 1] == CleanText(t.produkt)[|CleanText(t.produkt)| - 1];
    StripUnchanged(x);
  }

  /** A middle field that cleans to nothing leaves two spaces in a row:
      only the ends are stripped. */
  lemma EmptyMiddleLeavesDoubleSpace(t: Transaction)
    requires CleanText(t.opis) != "" && CleanText(t.nadawca) == "" && CleanText(t.produkt) != ""
    ensures var x := PreparedText(t); var k := |CleanText(t.opis)|;
      k + 1 < |x| && x[k] == ' ' && x[k + 1] == ' '
  {
    PreparedTextJoins(t);
    var a, b, c, d := CleanText(t.opis), CleanText(t.nadawca), CleanText(t.odbiorca), CleanText(t.produkt);
    var x := a + " " + b + " " + c + " " + d;
    assert PreparedText(t) == x;
    JoinWithEmptySecond(a, b, c, d);
  }

  lemma JoinWithEmptySecond(a: string, b: string, c: string, d: string)
    requires b == ""
    ensures var x := a + " " + b + " " + c + " " + d; |a| + 1 < |x| && x[|a|] == ' ' && x[|a| + 1] == ' '
  {
  }

  /** The prepared text never starts or ends with whitespace. */
  lemma PreparedTextTrimmed(t: Transaction)
    ensures PreparedText(t) != [] ==> !IsSpace(PreparedText(t)[0]) && !IsSpace(PreparedText(t)[|PreparedText(t)| - 1])
  {
    var p := PredictText(t);
    assert PreparedText(t) == Strip(p);
    StripSpec(p);
  }

  // ---------------------------------------------------------------------
  // The categoriser's training state

  /** The set a model was fitted on: the prepared texts and their labels. */
  datatype TrainingSet = TrainingSet(texts: seq<string>, labels: seq<Cell>)

  /** The TF-IDF vectoriser, reduced to the texts it was fitted on (`None`
      while unfitted). */
  datatype Vectorizer = Vectorizer(fittedOn: Option<seq<string>>)

  /** The random forest, reduced to the training set it was fitted on. */
  datatype Forest = Forest(fittedOn: Option<TrainingSet>)

  /** The three fields `train` and `load_model` assign. */
  datatype State = State(vectorizer: Vectorizer, model: Forest, isTrained: bool)

  /** The state `__init__` builds: both library objects unfitted, not trained. */
  const Initial := State(Vectorizer(None), Forest(None), false)

  /** The dictionary `save_model` hands to joblib, as `load_model` reads it
      back: each key may be missing from the file. */
  datatype SavedModel = SavedModel(vectorizer: Option<Vectorizer>, model: Option<Forest>)

  /** How `train` ends: it returns a flag, or an exception escapes it. */
  datatype TrainOutcome = Returned(ok: bool) | Raised

  /** Which library step of `train`, if any, raises: fitting the vectoriser,
      or the stratified split and the forest fit after it. */
  datatype Library = Fits | VectorizerRaises | SplitRaises

  /** `df['Category'].str.strip() != ''` keeps a row: a missing cell is NaN,
      and NaN compares unequal to the empty string. */
  predicate Labelled(c: Cell) {
    c.NaN? || !IsBlank(c.text)
  }

  /** A cell is labelled exactly when it is missing or strips to something. */
  lemma LabelledIsStripped(c: Cell)
    ensures Labelled(c) <==> c.NaN? || Strip(c.text) != []
  {
    if c.Str? {
      StripSpec(c.text);
    }
  }

  predicate AllMissing(cells: seq<Cell>) {
    forall i :: 0 <= i < |cells| ==> cells[i].NaN?
  }

  /** The rows `df[df['Category'].str.strip() != '']` keeps, with their
      categories, in file order (simple_ml_categorizer.py:119). */
  datatype Selection = Selection(rows: seq<Transaction>, labels: seq<Cell>)

  function Select(rows: seq<Transaction>, cells: seq<Cell>): (r: Selection)
    requires |cells| == |rows|
    ensures |r.rows| == |r.labels| <= |rows|
  {
    if rows == [] then Selection([], [])
    else
      var n := |rows| - 1;
      var init := Select(rows[..n], cells[..n]);
      if Labelled(cells[n]) then Selection(init.rows + [rows[n]], init.labels + [cells[n]])
      else init
  }

  /** The `combined_text` column of the kept rows (simple_ml_categorizer.py:128-131). */
  function Prepare(ts: seq<Transaction>): seq<string> {
    seq(|ts|, k requires 0 <= k < |ts| => PreparedText(ts[k]))
  }

  /** The features and labels `train` fits on. */
  function Kept(rows: seq<Transaction>, cells: seq<Cell>): TrainingSet
    requires |cells| == |rows|
  {
    var sel := Select(rows, cells);
    TrainingSet(Prepare(sel.rows), sel.labels)
  }

  /** `train` on a file whose rows are `rows` and whose `Category` column is
      `category` (`None` when the column is absent). A column holding only
      missing cells is read as numbers, and its `.str` accessor raises. */
  function TrainState(s: State, rows: seq<Transaction>, category: Option<seq<Cell>>, library: Library): (r: (State, TrainOutcome))
    requires category.Some? ==> |category.value| == |rows|
  {
    if category.None? then (s, Returned(false))
    else if rows != [] && AllMissing(category.value) then (s, Raised)
    else
      var kept := Kept(rows, category.value);
      if kept.labels == [] then (s, Returned(false))
      else match library
        case VectorizerRaises => (s, Raised)
        case SplitRaises => (s.(vectorizer := Vectorizer(Some(kept.texts))), Raised)
        case Fits => (State(Vectorizer(Some(kept.texts)), Forest(Some(kept)), true), Returned(true))
  }

  /** `load_model` on the unpickled file (`None` when joblib raises). The
      vectoriser is assigned before the model key is looked up, so a file
      without a model replaces the vectoriser and still reports failure. */
  function LoadState(s: State, file: Option<SavedModel>): (r: (State, bool))
  {
    if file.None? || file.value.vectorizer.None? then (s, false)
    else
      var withVectorizer := s.(vectorizer := file.value.vectorizer.value);
      if file.value.model.None? then (withVectorizer, false)
      else (State(file.value.vectorizer.value, file.value.model.value, true), true)
  }

  /** What `save_model` writes, or `None` when it returns without writing. */
  function SaveState(s: State): Option<SavedModel> {
    if s.isTrained then Some(SavedModel(Some(s.vectorizer), Some(s.model))) else None
  }

  /** The category `predict` returns for one transaction, or `None` while
      untrained; `classify` is the fitted pipeline's prediction for a text. */
  function PredictState(s: State, t: Transaction, classify: (Vectorizer, Forest, string) -> Cell): Option<Cell> {
    if s.isTrained then Some(classify(s.vectorizer, s.model, PredictText(t))) else None
  }

  /** Every kept category is missing or non-blank. */
  lemma {:induction false} SelectKeepsLabelled(rows: seq<Transaction>, cells: seq<Cell>)
    requires |cells| == |rows|
    ensures forall k :: 0 <= k < |Select(rows, cells).labels| ==> Labelled(Select(rows, cells).labels[k])
  {
    if rows != [] {
      var n := |rows| - 1;
      SelectKeepsLabelled(rows[..n], cells[..n]);
      var init := Select(rows[..n], cells[..n]);
      if Labelled(cells[n]) {
        assert Select(rows, cells).labels == init.labels + [cells[n]];
      }
    }
  }

  /** Nothing is kept exactly when no row is labelled. */
  lemma {:induction false} SelectEmpty(rows: seq<Transaction>, cells: seq<Cell>)
    requires |cells| == |rows|
    ensures Select(rows, cells).labels == [] <==> forall i :: 0 <= i < |rows| ==> !Labelled(cells[i])
  {
    if rows != [] {
      var n := |rows| - 1;
      SelectEmpty(rows[..n], cells[..n]);
      assert forall i :: 0 <= i < n ==> cells[..n][i] == cells[i];
    }
  }

  /** When every row is labelled, every row is kept with its category. */
  lemma {:induction false} SelectAll(rows: seq<Transaction>, cells: seq<Cell>)
    requires |cells| == |rows|
    requires forall i :: 0 <= i < |rows| ==> Labelled(cells[i])
    ensures Select(rows, cells) == Selection(rows, cells)
  {
    if rows != [] {
      var n := |rows| - 1;
      assert forall i :: 0 <= i < n ==> cells[..n][i] == cells[i];
      SelectAll(rows[..n], cells[..n]);
      InitLast(rows);
      InitLast(cells);
    }
  }

  /** The categories a trained `predict` gives the rows of a file, in order. */
  function PredictAll(s: State, rows: seq<Transaction>, classify: (Vectorizer, Forest, string) -> Cell): seq<Cell> {
    Map(t => classify(s.vectorizer, s.model, PredictText(t)), rows)
  }

  /** Each row's prediction is the pipeline's category for that row's
      cleaned, space-joined fields. */
  lemma PredictAllRows(s: State, rows: seq<Transaction>, classify: (Vectorizer, Forest, string) -> Cell)
    ensures var r := PredictAll(s, rows, classify);
      |r| == |rows| && forall i :: 0 <= i < |rows| ==> r[i] == classify(s.vectorizer, s.model, PredictText(rows[i]))
  {
    MapAt(t => classify(s.vectorizer, s.model, PredictText(t)), rows);
  }

  /** `train` gives up with `False`, leaving every field as it was, when the
      `Category` column is absent or no row carries a category. */
  lemma TrainGuards(s: State, rows: seq<Transaction>, category: Option<seq<Cell>>, library: Library)
    requires category.Some? ==> |category.value| == |rows|
    requires category.None? || forall i :: 0 <= i < |rows| ==> !Labelled(category.value[i])
    ensures TrainState(s, rows, category, library) == (s, Returned(false))
  {
    if category.Some? {
      SelectEmpty(rows, category.value);
    }
  }

  /** `is_trained` is only ever set by a `train` that returns `True`, which
      leaves both objects fitted on the kept rows; a `train` that fails in any
      way leaves the flag as it was. */
  lemma TrainSetsFlagOnSuccess(s: State, rows: seq<Transaction>, category: Option<seq<Cell>>, library: Library)
    requires category.Some? ==> |category.value| == |rows|
    ensures var (t, outcome) := TrainState(s, rows, category, library);
      && (outcome == Returned(true) ==> t.isTrained)
      && (outcome != Returned(true) ==> t.isTrained == s.isTrained && t.model == s.model)
      && (outcome == Returned(true) ==>
            category.Some? && library == Fits
            && t.model == Forest(Some(Kept(rows, category.value)))
            && t.vectorizer == Vectorizer(Some(Kept(rows, category.value).texts))
            && Kept(rows, category.value).labels != [])
  {
  }

  /** `load_model` sets the flag exactly when it returns `True`, and a failed
      load leaves the flag and the model as they were. */
  lemma LoadSetsFlagOnSuccess(s: State, file: Option<SavedModel>)
    ensures var (t, ok) := LoadState(s, file);
      && (ok ==> t.isTrained && t.vectorizer == file.value.vectorizer.value && t.model == file.value.model.value)
      && (!ok ==> t.isTrained == s.isTrained && t.model == s.model)
      && (ok <==> file.Some? && file.value.vectorizer.Some? && file.value.model.Some?)
  {
  }

  /** Loading what `save_model` wrote restores the saved state, whatever
      state the loading categoriser was in. */
  lemma SaveLoadRoundTrip(s: State, other: State)
    requires s.isTrained
    ensures SaveState(s).Some? && LoadState(other, SaveState(s)) == (s, true)
  {
  }

  /** A fresh categoriser predicts nothing and saves nothing; only a
      successful `train` or `load_model` changes that. */
  lemma UntrainedGuards(t: Transaction, classify: (Vectorizer, Forest, string) -> Cell)
    ensures PredictState(Initial, t, classify).None? && SaveState(Initial).None?
    ensures forall s: State :: !s.isTrained ==> PredictState(s, t, classify).None? && SaveState(s).None?
  {
  }

  /** `SimpleTransactionCategorizer`: the training state plus the category
      table the keyword rule searches. */
  class Categorizer {
    var vectorizer: Vectorizer
    var model: Forest
    var isTrained: bool
    const categories: Table

    function Current(): State
      reads this
    {
      State(vectorizer, model, isTrained)
    }

    /** `__init__`: unfitted objects, not trained. */
    constructor (table: Table)
      ensures Current() == Initial && categories == table
    {
      vectorizer := Vectorizer(None);
      model := Forest(None);
      isTrained := false;
      categories := table;
    }

    /** `suggest_category` over this categoriser's table. */
    function Suggest(description: Cell, nadawca: Cell, odbiorca: Cell, product: Cell): (r: string)
      ensures r == Other || exists i :: 0 <= i < |categories| && r == categories[i].name
    {
      SuggestCategory(categories, description, nadawca, odbiorca, product)
    }

    /** `train`: the guards, then fitting on the kept rows. */
    method Train(rows: seq<Transaction>, category: Option<seq<Cell>>, library: Library) returns (outcome: TrainOutcome)
      requires category.Some? ==> |category.value| == |rows|
      modifies this
      ensures (Current(), outcome) == TrainState(old(Current()), rows, category, library)
    {
      if category.None? {
        return Returned(false);
      }
      var cells := category.value;
      if rows != [] && AllMissing(cells) {
        return Raised;
      }
      var kept := Kept(rows, cells);
      if kept.labels == [] {
        return Returned(false);
      }
      if library == VectorizerRaises {
        return Raised;
      }
      vectorizer := Vectorizer(Some(kept.texts));
      if library == SplitRaises {
        return Raised;
      }
      model := Forest(Some(kept));
      isTrained := true;
      return Returned(true);
    }

    /** `predict`: `None` while untrained, otherwise the pipeline's category
        for the cleaned fields joined by single spaces. */
    function Predict(t: Transaction, classify: (Vectorizer, Forest, string) -> Cell): (r: Option<Cell>)
      reads this
      ensures r.None? <==> !isTrained
      ensures r.Some? ==> r.value == classify(vectorizer, model, PredictText(t))
    {
      PredictState(Current(), t, classify)
    }

    /** `predict_csv`'s loop: one prediction per row, in file order, or
        nothing at all while untrained. */
    method PredictCsv(rows: seq<Transaction>, classify: (Vectorizer, Forest, string) -> Cell) returns (predictions: Option<seq<Cell>>)
      ensures predictions == if isTrained then Some(PredictAll(Current(), rows, classify)) else None
    {
      if !isTrained {
        return None;
      }
      var acc: seq<Cell> := [];
      for i := 0 to |rows|
        invariant acc == PredictAll(Current(), rows[..i], classify)
      {
        var pred := Predict(rows[i], classify);
        assert rows[..i + 1][..i] == rows[..i];
        acc := acc + [if pred.Some? then pred.value else Str(Other)];
      }
      assert rows[..|rows|] == rows;
      return Some(acc);
    }

    /** `save_model`: the file contents, or `None` when it returns early. */
    function Save(): (r: Option<SavedModel>)
      reads this
      ensures r.None? <==> !isTrained
      ensures r.Some? ==> LoadState(Initial, r).0 == Current()
    {
      SaveState(Current())
    }

    /** `load_model`. */
    method Load(file: Option<SavedModel>) returns (ok: bool)
      modifies this
      ensures (Current(), ok) == LoadState(old(Current()), file)
    {
      if file.None? || file.value.vectorizer.None? {
        return false;
      }
      vectorizer := file.value.vectorizer.value;
      if file.value.model.None? {
        return false;
      }
      model := file.value.model.value;
      isTrained := true;
      return true;
    }
  }
}
