/**
 * The music mapping of src/utils/fibonacciMusic.js.  Generalised Fibonacci
 * sequences with chosen seeds and an optional modulus are read, through
 * JavaScript's truncating remainder, as chromatic note names, octaves,
 * rhythm values, scale degrees and chord spellings.  A composition is then
 * flattened into a list of timed events.
 *
 * JavaScript numbers appear as `int`, durations as `real` (every duration is
 * a quarter or a multiple of it, so `real` holds it exactly).  An undefined
 * array element, CHROMATIC_NOTES[-1] say, is `None`.
 */
module Music {
  import opened FibMath

  datatype Option<T> = None | Some(value: T)

  /** A call that returns a value, or throws a TypeError. */
  datatype Outcome<T> = Done(value: T) | TypeError

  /** JavaScript's a % b: the remainder has the sign of a and is smaller than b in magnitude. */
  function JsRem(a: int, b: int): (r: int)
    requires b != 0
    ensures a >= 0 ==> 0 <= r < Magnitude(b)
    ensures a < 0 ==> r <= 0 && r + Magnitude(b) > 0
    ensures a >= 0 && b > 0 ==> r == a % b
  {
    if a >= 0 then a % b else -((-a) % b)
  }

  function Magnitude(b: int): nat
  {
    if b < 0 then -b else b
  }

  lemma JsRemNegativeOne()
    ensures JsRem(-1, 12) == -1 && (-1) % 12 == 11
  {
  }

  /** f(0), ..., f(n - 1): the list a loop pushing f(i) for i below n builds. */
  function Tabulate<T>(n: int, f: nat -> T): seq<T>
    decreases n
  {
    if n <= 0 then [] else Tabulate(n - 1, f) + [f(n - 1)]
  }

  lemma {:induction false} TabulateAt<T>(n: int, f: nat -> T)
    ensures |Tabulate(n, f)| == if n < 0 then 0 else n
    ensures forall i :: 0 <= i < |Tabulate(n, f)| ==> Tabulate(n, f)[i] == f(i)
    decreases n
  {
    if n > 0 {
      TabulateAt(n - 1, f);
    }
  }

  /** A loop over i below n that stops at n, or at once when n is negative, has built Tabulate(n, f). */
  lemma TabulateStop<T>(n: int, i: int, f: nat -> T)
    requires 0 <= i && i <= (if n < 0 then 0 else n) && i >= n
    ensures Tabulate(i, f) == Tabulate(n, f)
  {
  }

  // ---------------------------------------------------------------------
  // Note names
  // ---------------------------------------------------------------------

  const Chromatic: seq<string> := ["C", "C#", "D", "D#", "E", "F", "F#", "G", "G#", "A", "A#", "B"]

  /** CHROMATIC_NOTES[k]: undefined outside 0..11. */
  function NoteAt(k: int): (r: Option<string>)
    ensures r.Some? <==> 0 <= k < 12
    ensures r.Some? ==> r.value == Chromatic[k]
  {
    if 0 <= k < 12 then Some(Chromatic[k]) else None
  }

  /** The first index from k on at which name stands, or -1. */
  function FindFrom(name: string, k: nat): (r: int)
    requires k <= 12
    ensures r == -1 || (k <= r < 12 && Chromatic[r] == name)
    decreases 12 - k
  {
    if k == 12 then -1 else if Chromatic[k] == name then k else FindFrom(name, k + 1)
  }

  lemma {:induction false} FindFromMissing(name: string, k: nat)
    requires k <= 12
    ensures FindFrom(name, k) == -1 <==> name !in Chromatic[k..]
    decreases 12 - k
  {
    if k < 12 {
      FindFromMissing(name, k + 1);
      assert Chromatic[k..] == [Chromatic[k]] + Chromatic[k + 1..];
    }
  }

  /** CHROMATIC_NOTES.indexOf(note); undefined is found nowhere. */
  function IndexOf(note: Option<string>): (r: int)
    ensures -1 <= r < 12
    ensures r >= 0 ==> NoteAt(r) == note
  {
    match note
    case None => -1
    case Some(name) => FindFrom(name, 0)
  }

  /** indexOf reports -1 exactly for a name outside the twelve. */
  lemma IndexOfMissing(name: string)
    ensures IndexOf(Some(name)) == -1 <==> name !in Chromatic
  {
    FindFromMissing(name, 0);
    assert Chromatic[0..] == Chromatic;
  }

  /** The twelve names are distinct, so indexOf reads back the index of any name. */
  lemma IndexOfNoteAt(k: int)
    requires 0 <= k < 12
    ensures IndexOf(NoteAt(k)) == k
  {
    var r := IndexOf(NoteAt(k));
    assert forall a, b :: 0 <= a < b < 12 ==> Chromatic[a] != Chromatic[b] by {
      assert forall a :: 0 <= a < 12 ==> |Chromatic[a]| == 1 || Chromatic[a][1] == '#';
      assert forall a, b :: 0 <= a < b < 12 ==> Chromatic[a] != Chromatic[b];
    }
  }

  // ---------------------------------------------------------------------
  // generateFibonacciSequence(length, start1, start2, modulo)
  // ---------------------------------------------------------------------

  /** How many terms the generator returns: lengths 0 and 1 are honoured, 2 or less gives 2. */
  function SeqLength(length: int): nat
  {
    if length == 0 then 0 else if length == 1 then 1 else if length <= 2 then 2 else length
  }

  /** A sum reduced by the modulus when it is truthy (0 stands for null as well). */
  function Reduce(next: int, modulo: int): int
  {
    if modulo != 0 then JsRem(next, modulo) else next
  }

  /** Term i of the sequence: the two seeds as given, then reduced sums of the two before. */
  function Term(i: nat, start1: int, start2: int, modulo: int): int
  {
    if i == 0 then start1
    else if i == 1 then start2
    else Reduce(Term(i - 1, start1, start2, modulo) + Term(i - 2, start1, start2, modulo), modulo)
  }

  method GenerateSequence(length: int, start1: int, start2: int, modulo: int) returns (s: seq<int>)
    ensures |s| == SeqLength(length)
    ensures forall k :: 0 <= k < |s| ==> s[k] == Term(k, start1, start2, modulo)
  {
    ghost var term := (k: nat) => Term(k, start1, start2, modulo);
    if length == 0 {
      return [];
    }
    if length == 1 {
      return [start1];
    }
    if length == 2 {
      return [start1, start2];
    }
    s := [start1, start2];
    assert s == Tabulate(2, term);
    var i := 2;
    while i < length
      invariant 2 <= i && i <= if length < 2 then 2 else length
      invariant s == Tabulate(i, term)
    {
      TabulateAt(i, term);
      var next := s[i - 1] + s[i - 2];
      s := s + [Reduce(next, modulo)];
      i := i + 1;
    }
    TabulateAt(i, term);
  }

  /** With seeds 1, 1 and no modulus the terms are F(1), F(2), F(3), ... */
  lemma {:induction false} UnseededIsFib(i: nat)
    ensures Term(i, 1, 1, 0) == Fib(i + 1)
  {
    if i >= 2 {
      UnseededIsFib(i - 1);
      UnseededIsFib(i - 2);
    }
  }

  /**
   * With non-negative seeds every term is non-negative, and with a modulus
   * every term after the seeds lies below it.
   */
  lemma {:induction false} TermBounds(i: nat, start1: int, start2: int, modulo: int)
    requires start1 >= 0 && start2 >= 0
    ensures Term(i, start1, start2, modulo) >= 0
    ensures modulo != 0 && i >= 2 ==> Term(i, start1, start2, modulo) < Magnitude(modulo)
  {
    if i >= 2 {
      TermBounds(i - 1, start1, start2, modulo);
      TermBounds(i - 2, start1, start2, modulo);
    }
  }

  /** Remainders add, for the moduli the music uses. */
  lemma ModAdd(a: int, b: int, m: int)
    requires m == 5 || m == 7 || m == 12
    ensures (a + b) % m == (a % m + b % m) % m
  {
    if m == 5 {
      ModAdd5(a, b);
    } else if m == 7 {
      ModAdd7(a, b);
    } else {
      ModAdd12(a, b);
    }
  }

  lemma ModAdd5(a: int, b: int)
    ensures (a + b) % 5 == (a % 5 + b % 5) % 5
  {
  }

  lemma AddCongruent5(a: int, b: int, c: int, d: int)
    requires a % 5 == c % 5 && b % 5 == d % 5
    ensures (a + b) % 5 == (c + d) % 5
  {
    ModAdd5(a, b);
    ModAdd5(c, d);
  }

  lemma ModAdd7(a: int, b: int)
    ensures (a + b) % 7 == (a % 7 + b % 7) % 7
  {
  }

  lemma ModAdd12(a: int, b: int)
    ensures (a + b) % 12 == (a % 12 + b % 12) % 12
  {
  }

  /**
   * Modulo 12 the melody's seeds 1, 13 behave like 1, 1: term i is F(i + 1)
   * modulo 12.  The 13 is a seed, not a modulus.
   */
  lemma {:induction false} MelodyTermIsFib(i: nat)
    ensures Term(i, 1, 13, 0) % 12 == Fib(i + 1) % 12
  {
    if i >= 2 {
      MelodyTermIsFib(i - 1);
      MelodyTermIsFib(i - 2);
      ModAdd(Term(i - 1, 1, 13, 0), Term(i - 2, 1, 13, 0), 12);
      ModAdd(Fib(i), Fib(i - 1), 12);
    }
  }

  /** With seeds 1, 1 and modulus 7, term i is F(i + 1) modulo 7. */
  lemma {:induction false} ChordTermIsFib(i: nat)
    ensures Term(i, 1, 1, 7) == Fib(i + 1) % 7
  {
    if i >= 2 {
      ChordTermIsFib(i - 1);
      ChordTermIsFib(i - 2);
      ModAdd(Fib(i), Fib(i - 1), 7);
    }
  }

  // ---------------------------------------------------------------------
  // getFibonacciRhythm
  // ---------------------------------------------------------------------

  /** Quarter, half, dotted quarter, whole and dotted half, in beats. */
  const Patterns: seq<real> := [0.25, 0.5, 0.75, 1.0, 1.5]

  /** The rhythm at a position: the pattern at F(position + 3) modulo 5. */
  function RhythmOf(position: nat): (d: real)
    ensures d in Patterns
  {
    Patterns[Fib(position + 3) % 5]
  }

  method GetFibonacciRhythm(position: nat) returns (d: real)
    ensures d == RhythmOf(position)
  {
    var s := GenerateSequence(position + 3, 1, 1, 0);
    UnseededIsFib(position + 2);
    d := Patterns[JsRem(s[position + 2], 5)];
  }

  /** F(n + 20) and F(n) agree modulo 5. */
  lemma {:induction false} FibModFivePeriod(n: nat)
    ensures Fib(n + 20) % 5 == Fib(n) % 5
  {
    if n < 2 {
      FibValues();
    } else {
      FibModFivePeriod(n - 1);
      FibModFivePeriod(n - 2);
      assert Fib(n + 20) == Fib(n + 19) + Fib(n + 18);
      assert Fib(n) == Fib(n - 1) + Fib(n - 2);
      AddCongruent5(Fib(n + 19), Fib(n + 18), Fib(n - 1), Fib(n - 2));
    }
  }

  /** The rhythm repeats every 20 positions. */
  lemma RhythmPeriodic(position: nat)
    ensures RhythmOf(position + 20) == RhythmOf(position)
  {
    FibModFivePeriod(position + 3);
  }

  // ---------------------------------------------------------------------
  // generateFibonacciMelody (note, octave and duration)
  // ---------------------------------------------------------------------

  datatype MelodyNote = MelodyNote(note: Option<string>, octave: int, duration: real)

  /**
   * The semitone step of note i: F(i + 1) modulo 12, which is what term i of
   * the 1, 13 sequence modulo 12 gives (MelodyTermIsFib).
   */
  function MelodyStep(i: nat): (v: int)
    ensures 0 <= v < 12
  {
    Fib(i + 1) % 12
  }

  /** The step the generator reads off term i of the 1, 13 sequence modulo 12. */
  lemma StepOfTerm(i: nat)
    ensures JsRem(Term(i, 1, 13, 0), 12) == MelodyStep(i)
  {
    MelodyTermIsFib(i);
    TermBounds(i, 1, 13, 0);
  }

  /**
   * Note i of the melody: its step added to the base note's index, read as a
   * note name and an octave (Math.floor(x / 12) is Dafny's x / 12, since the
   * divisor is positive).
   */
  function MelodyNoteAt(i: nat, baseNote: string, octave: int): MelodyNote
  {
    var x := IndexOf(Some(baseNote)) + MelodyStep(i);
    MelodyNote(NoteAt(JsRem(x, 12)), octave + x / 12, RhythmOf(i))
  }

  /** Note i of the melody as a function of i. */
  function NoteFn(baseNote: string, octave: int): nat -> MelodyNote
  {
    (i: nat) => MelodyNoteAt(i, baseNote, octave)
  }

  /** The first length notes of the melody. */
  function Melody(length: int, baseNote: string, octave: int): seq<MelodyNote>
  {
    Tabulate(length, NoteFn(baseNote, octave))
  }

  /** The melody has length notes (none for a negative length), note i being MelodyNoteAt(i). */
  lemma MelodyAt(length: int, baseNote: string, octave: int)
    ensures |Melody(length, baseNote, octave)| == if length < 0 then 0 else length
    ensures forall i :: 0 <= i < |Melody(length, baseNote, octave)| ==>
              Melody(length, baseNote, octave)[i] == MelodyNoteAt(i, baseNote, octave)
  {
    TabulateAt(length, NoteFn(baseNote, octave));
  }

  /** Every note among the first length has a name, so getNoteFrequency can look it up. */
  predicate AllDefined(length: int, baseNote: string, octave: int)
  {
    forall i: nat :: i < length ==> MelodyNoteAt(i, baseNote, octave).note.Some?
  }

  /**
   * What generateFibonacciMelody does: it returns the melody, unless some
   * note is undefined, in which case getNoteFrequency calls replace on
   * undefined and the call throws a TypeError.
   */
  function MelodyResult(length: int, baseNote: string, octave: int): Outcome<seq<MelodyNote>>
  {
    if AllDefined(length, baseNote, octave) then Done(Melody(length, baseNote, octave)) else TypeError
  }

  method GenerateFibonacciMelody(length: int, baseNote: string, octave: int) returns (r: Outcome<seq<MelodyNote>>)
    ensures r == MelodyResult(length, baseNote, octave)
  {
    var sequence := GenerateSequence(length + 1, 1, 13, 0);
    var base := IndexOf(Some(baseNote));
    var melody := [];
    var i := 0;
    while i < length
      invariant 0 <= i && i <= if length < 0 then 0 else length
      invariant melody == Melody(i, baseNote, octave) && AllDefined(i, baseNote, octave)
    {
      StepOfTerm(i);
      var x := base + JsRem(sequence[i], 12);
      var duration := GetFibonacciRhythm(i);
      var note := MelodyNote(NoteAt(JsRem(x, 12)), octave + x / 12, duration);
      assert note == MelodyNoteAt(i, baseNote, octave);
      if note.note.None? {
        // getNoteFrequency(undefined, noteOctave) throws before the push
        assert !AllDefined(length, baseNote, octave);
        return TypeError;
      }
      melody := melody + [note];
      i := i + 1;
    }
    TabulateStop(length, i, NoteFn(baseNote, octave));
    r := Done(melody);
  }

  /**
   * With a base note among the twelve the melody is always returned.  With
   * any other base note the call throws exactly when at least twelve notes
   * are asked for: F(1) to F(11) are not multiples of 12, F(12) = 144 is, so
   * note 11 is the first undefined one.
   */
  lemma MelodyOutcome(length: int, baseNote: string, octave: int)
    ensures IndexOf(Some(baseNote)) >= 0 ==> MelodyResult(length, baseNote, octave) == Done(Melody(length, baseNote, octave))
    ensures IndexOf(Some(baseNote)) == -1 ==> (MelodyResult(length, baseNote, octave) == TypeError <==> length >= 12)
  {
    FibValues();
    assert Fib(2) == 1 && Fib(3) == 2 && Fib(4) == 3 && Fib(5) == 5 && Fib(6) == 8 && Fib(7) == 13 && Fib(8) == 21;
    if IndexOf(Some(baseNote)) >= 0 || length < 12 {
      forall i: nat | i < length
        ensures MelodyNoteAt(i, baseNote, octave).note.Some?
      {
        MelodyNotes(i, baseNote, octave);
      }
    } else {
      MelodyNotes(11, baseNote, octave);
    }
  }

  /**
   * For a base note among the twelve, note i is the base note raised by its
   * step of F(i + 1) mod 12 semitones, in the given octave or the next.  For
   * any other base note, note i is undefined exactly when F(i + 1) is a
   * multiple of 12 (the octave is the one the loop computes before
   * getNoteFrequency throws on such a note).
   */
  lemma MelodyNotes(i: nat, baseNote: string, octave: int)
    ensures var m := MelodyNoteAt(i, baseNote, octave);
            var v := MelodyStep(i);
            var b := IndexOf(Some(baseNote));
            m.duration in Patterns &&
            (b >= 0 ==>
               m.note == NoteAt((b + v) % 12) && m.note.Some? &&
               m.octave == (if b + v < 12 then octave else octave + 1)) &&
            (b == -1 ==>
               (m.note.None? <==> v == 0) &&
               (v > 0 ==> m.note == NoteAt(v - 1)) &&
               m.octave == (if v == 0 then octave - 1 else octave))
  {
  }

  /** The opening of the default melody on C: C#, C#, D, D# in octave 4. */
  lemma MelodyOpening()
    ensures MelodyNoteAt(0, "C", 4) == MelodyNote(Some("C#"), 4, 0.75)
    ensures MelodyNoteAt(1, "C", 4) == MelodyNote(Some("C#"), 4, 1.0)
    ensures MelodyNoteAt(2, "C", 4) == MelodyNote(Some("D"), 4, 0.25)
    ensures MelodyNoteAt(3, "C", 4) == MelodyNote(Some("D#"), 4, 1.0)
  {
    assert IndexOf(Some("C")) == 0;
    assert Fib(3) == 2 && Fib(4) == 3 && Fib(5) == 5 && Fib(6) == 8;
  }

  // ---------------------------------------------------------------------
  // generateFibonacciChords, getNoteFromInterval, generateChordNotes
  // ---------------------------------------------------------------------

  datatype Quality = Maj | Min | Dim

  const MajorScaleIntervals: seq<int> := [0, 2, 4, 5, 7, 9, 11]
  const ChordTypes: seq<Quality> := [Maj, Min, Maj, Min, Min, Maj, Dim]

  datatype Chord = Chord(root: Option<string>, quality: Quality, notes: seq<Option<string>>, duration: real)

  /** The third and the fifth above the root, in semitones. */
  function Third(q: Quality): int
  {
    match q
    case Maj => 4
    case Min => 3
    case Dim => 3
  }

  function Fifth(q: Quality): int
  {
    match q
    case Maj => 7
    case Min => 7
    case Dim => 6
  }

  /** getNoteFromInterval: the name interval semitones above the root, if that index is defined. */
  function GetNoteFromInterval(rootNote: Option<string>, interval: int): (r: Option<string>)
    ensures interval >= 0 && IndexOf(rootNote) >= 0 ==> r == NoteAt((IndexOf(rootNote) + interval) % 12) && r.Some?
    ensures interval >= 0 && IndexOf(rootNote) == -1 ==> (r.None? <==> interval == 0)
  {
    NoteAt(JsRem(IndexOf(rootNote) + interval, 12))
  }

  /** generateChordNotes: the root, then its third and fifth by name. */
  function ChordNotes(root: Option<string>, q: Quality): (r: seq<Option<string>>)
    ensures |r| == 3 && r[0] == root
    ensures r[1] == NoteAt((IndexOf(root) + Third(q)) % 12) && r[2] == NoteAt((IndexOf(root) + Fifth(q)) % 12)
  {
    var i := IndexOf(root);
    [root, NoteAt(JsRem(i + Third(q), 12)), NoteAt(JsRem(i + Fifth(q), 12))]
  }

  /**
   * A chord on one of the twelve names is three defined names: the root, the
   * name a third above it and the name a fifth above it, wrapping round the
   * octave.
   */
  lemma ChordSpelling(root: Option<string>, q: Quality)
    requires IndexOf(root) >= 0
    ensures var r := ChordNotes(root, q);
            r[0] == root && r[1].Some? && r[2].Some? &&
            IndexOf(r[1]) == (IndexOf(root) + Third(q)) % 12 &&
            IndexOf(r[2]) == (IndexOf(root) + Fifth(q)) % 12
  {
    IndexOfNoteAt((IndexOf(root) + Third(q)) % 12);
    IndexOfNoteAt((IndexOf(root) + Fifth(q)) % 12);
  }

  /**
   * The scale degree of chord i: F(i + 1) modulo 7, which is what term i of
   * the 1, 1 sequence reduced modulo 7 gives (ChordTermIsFib).
   */
  function Degree(i: nat): (d: int)
    ensures 0 <= d < 7
  {
    Fib(i + 1) % 7
  }

  /** The degree the generator reads off term i of the 1, 1 sequence modulo 7. */
  lemma DegreeOfTerm(i: nat)
    ensures JsRem(Term(i, 1, 1, 7), 7) == Degree(i)
  {
    ChordTermIsFib(i);
    var t := Term(i, 1, 1, 7);
    assert 0 <= t < 7;
  }

  /** Chord i in the given key. */
  function ChordAt(i: nat, key: string): Chord
  {
    var d := Degree(i);
    var root := GetNoteFromInterval(Some(key), MajorScaleIntervals[d]);
    Chord(root, ChordTypes[d], ChordNotes(root, ChordTypes[d]), RhythmOf(i) * 2.0)
  }

  /** Chord i of the progression as a function of i. */
  function ChordFn(key: string): nat -> Chord
  {
    (i: nat) => ChordAt(i, key)
  }

  /** The first count chords of the progression. */
  function Progression(count: int, key: string): seq<Chord>
  {
    Tabulate(count, ChordFn(key))
  }

  /** The progression has count chords (none for a negative count), chord i being ChordAt(i). */
  lemma ProgressionAt(count: int, key: string)
    ensures |Progression(count, key)| == if count < 0 then 0 else count
    ensures forall i :: 0 <= i < |Progression(count, key)| ==> Progression(count, key)[i] == ChordAt(i, key)
  {
    TabulateAt(count, ChordFn(key));
  }

  /** The chord the loop of generateFibonacciChords pushes at step i, read off term i of its sequence. */
  method ChordStep(sequence: seq<int>, i: nat, key: string) returns (chord: Chord)
    requires i < |sequence| && forall k :: 0 <= k < |sequence| ==> sequence[k] == Term(k, 1, 1, 7)
    ensures chord == ChordAt(i, key)
  {
    DegreeOfTerm(i);
    var degree := JsRem(sequence[i], 7);
    var root := GetNoteFromInterval(Some(key), MajorScaleIntervals[degree]);
    var quality := ChordTypes[degree];
    var rhythm := GetFibonacciRhythm(i);
    chord := Chord(root, quality, ChordNotes(root, quality), rhythm * 2.0);
  }

  method GenerateFibonacciChords(count: int, key: string) returns (chords: seq<Chord>)
    ensures chords == Progression(count, key)
  {
    var sequence := GenerateSequence(count + 10, 1, 1, 7);
    chords := [];
    var i := 0;
    while i < count
      invariant 0 <= i && i <= if count < 0 then 0 else count
      invariant chords == Progression(i, key)
    {
      var chord := ChordStep(sequence, i, key);
      chords := chords + [chord];
      i := i + 1;
    }
    TabulateStop(count, i, ChordFn(key));
  }

  /**
   * In a key among the twelve, chord i stands on scale degree Degree(i),
   * which is F(i + 1) mod 7: its root is that degree of the major scale, its
   * quality the degree's, its three notes all defined and its duration twice
   * a rhythm value.  In any other key the root is undefined exactly on
   * degree 0.
   */
  lemma ChordProperties(i: nat, key: string)
    ensures var c := ChordAt(i, key);
            var d := Degree(i);
            var b := IndexOf(Some(key));
            c.quality == ChordTypes[d] && c.notes == ChordNotes(c.root, c.quality) &&
            c.duration / 2.0 in Patterns &&
            (b >= 0 ==>
               c.root == NoteAt((b + MajorScaleIntervals[d]) % 12) &&
               c.notes[0].Some? && c.notes[1].Some? && c.notes[2].Some?) &&
            (b == -1 ==> (c.root.None? <==> d == 0))
  {
    var d := Degree(i);
    var b := IndexOf(Some(key));
    ChordRoot(i, key);
    if b >= 0 {
      var interval := MajorScaleIntervals[d];
      IntervalAbove(key, interval);
      IndexOfNoteAt((b + interval) % 12);
      ChordSpelling(NoteAt((b + interval) % 12), ChordTypes[d]);
    }
  }

  /** The root of chord i is the note of its degree's interval above the key. */
  lemma ChordRoot(i: nat, key: string)
    ensures 0 <= MajorScaleIntervals[Degree(i)] < 12
    ensures ChordAt(i, key).root == GetNoteFromInterval(Some(key), MajorScaleIntervals[Degree(i)])
  {
  }

  lemma IntervalAbove(key: string, interval: int)
    requires 0 <= interval < 12 && IndexOf(Some(key)) >= 0
    ensures GetNoteFromInterval(Some(key), interval) == NoteAt((IndexOf(Some(key)) + interval) % 12)
  {
  }

  /**
   * The opening of the default progression in C: D minor twice, E major,
   * F minor (their spellings follow from ChordSpelling).
   */
  lemma ChordOpening()
    ensures ChordAt(0, "C").root == Some("D") && ChordAt(0, "C").quality == Min
    ensures ChordAt(1, "C").root == Some("D") && ChordAt(1, "C").quality == Min
    ensures ChordAt(2, "C").root == Some("E") && ChordAt(2, "C").quality == Maj
    ensures ChordAt(3, "C").root == Some("F") && ChordAt(3, "C").quality == Min
  {
    assert Fib(1) == 1 && Fib(2) == 1 && Fib(3) == 2 && Fib(4) == 3;
    assert IndexOf(Some("C")) == 0;
    assert NoteAt(2) == Some("D") && NoteAt(4) == Some("E") && NoteAt(5) == Some("F");
    ChordProperties(0, "C");
    ChordProperties(1, "C");
    ChordProperties(2, "C");
    ChordProperties(3, "C");
  }

  // ---------------------------------------------------------------------
  // createFibonacciComposition
  // ---------------------------------------------------------------------

  datatype Metadata = Metadata(key: string, tempo: int, instrument: string, timeSignature: string, length: int)
  datatype Composition = Composition(melody: seq<MelodyNote>, chords: seq<Chord>, metadata: Metadata)

  function Max(x: int, y: int): (m: int)
    ensures m >= x && m >= y && (m == x || m == y)
  {
    if x >= y then x else y
  }

  /**
   * createFibonacciComposition: the melody in octave 4, then the chords, in
   * the same key; a throwing melody makes the whole call throw.
   */
  method CreateFibonacciComposition(melodyLength: int, chordLength: int, key: string, tempo: int,
                                    instrument: string) returns (r: Outcome<Composition>)
    ensures r.TypeError? <==> MelodyResult(melodyLength, key, 4).TypeError?
    ensures IndexOf(Some(key)) >= 0 ==> r.Done?
    ensures IndexOf(Some(key)) == -1 ==> (r.TypeError? <==> melodyLength >= 12)
    ensures r.Done? ==> r.value.melody == Melody(melodyLength, key, 4) && r.value.chords == Progression(chordLength, key)
    ensures r.Done? ==> r.value.metadata == Metadata(key, tempo, instrument, "4/4", Max(Max(melodyLength, 0), Max(chordLength, 0)))
  {
    MelodyOutcome(melodyLength, key, 4);
    var melody := GenerateFibonacciMelody(melodyLength, key, 4);
    if melody.TypeError? {
      return TypeError;
    }
    var chords := GenerateFibonacciChords(chordLength, key);
    MelodyAt(melodyLength, key, 4);
    ProgressionAt(chordLength, key);
    r := Done(Composition(melody.value, chords, Metadata(key, tempo, instrument, "4/4", Max(|melody.value|, |chords|))));
  }

  // ---------------------------------------------------------------------
  // compositionToMIDI
  // ---------------------------------------------------------------------

  datatype MidiEvent =
    | NoteOn(time: real, note: Option<string>, octave: int, duration: real)
    | ChordOn(time: real, note: Option<string>, quality: Quality, duration: real)

  datatype Midi = Midi(events: seq<MidiEvent>, duration: real, metadata: Metadata)

  /** The total duration of a melody. */
  function MelodyTime(melody: seq<MelodyNote>): real
  {
    if melody == [] then 0.0 else MelodyTime(melody[..|melody| - 1]) + melody[|melody| - 1].duration
  }

  /** The total duration of a progression. */
  function ChordTime(chords: seq<Chord>): real
  {
    if chords == [] then 0.0 else ChordTime(chords[..|chords| - 1]) + chords[|chords| - 1].duration
  }

  /** How many notes the chords hold together. */
  function NoteCount(chords: seq<Chord>): nat
  {
    if chords == [] then 0 else NoteCount(chords[..|chords| - 1]) + |chords[|chords| - 1].notes|
  }

  /** The melody's events: each note at the time the notes before it take. */
  function MelodyEvents(melody: seq<MelodyNote>): seq<MidiEvent>
  {
    if melody == [] then []
    else
      var front, last := melody[..|melody| - 1], melody[|melody| - 1];
      MelodyEvents(front) + [NoteOn(MelodyTime(front), last.note, last.octave, last.duration)]
  }

  /** One chord's events: each of its notes at the chord's start time. */
  function NoteEvents(chord: Chord, time: real): (r: seq<MidiEvent>)
    ensures |r| == |chord.notes|
  {
    seq(|chord.notes|, (k: int) requires 0 <= k < |chord.notes| =>
        ChordOn(time, chord.notes[k], chord.quality, chord.duration))
  }

  /** The progression's events: each chord's notes at the time the chords before it take. */
  function ChordEvents(chords: seq<Chord>): seq<MidiEvent>
  {
    if chords == [] then []
    else
      var front := chords[..|chords| - 1];
      ChordEvents(front) + NoteEvents(chords[|chords| - 1], ChordTime(front))
  }

  /** The inner loop of compositionToMIDI: push one chordOn event per note of the chord. */
  method PushChord(events: seq<MidiEvent>, chord: Chord, time: real) returns (r: seq<MidiEvent>)
    ensures r == events + NoteEvents(chord, time)
  {
    r := events;
    var k := 0;
    while k < |chord.notes|
      invariant 0 <= k <= |chord.notes| && |r| == |events| + k && r[..|events|] == events
      invariant forall q :: 0 <= q < k ==> r[|events| + q] == ChordOn(time, chord.notes[q], chord.quality, chord.duration)
    {
      r := r + [ChordOn(time, chord.notes[k], chord.quality, chord.duration)];
      k := k + 1;
    }
    assert r == events + NoteEvents(chord, time);
  }

  method CompositionToMIDI(c: Composition) returns (m: Midi)
    ensures m.events == MelodyEvents(c.melody) + ChordEvents(c.chords)
    ensures m.duration == ChordTime(c.chords)
    ensures m.metadata == c.metadata
  {
    var events := [];
    var currentTime := 0.0;
    var i := 0;
    while i < |c.melody|
      invariant 0 <= i <= |c.melody|
      invariant events == MelodyEvents(c.melody[..i]) && currentTime == MelodyTime(c.melody[..i])
    {
      var note := c.melody[i];
      ghost var done := c.melody[..i + 1];
      assert done[..i] == c.melody[..i];
      events := events + [NoteOn(currentTime, note.note, note.octave, note.duration)];
      currentTime := currentTime + note.duration;
      i := i + 1;
      assert done == c.melody[..i];
    }
    assert c.melody[..i] == c.melody;
    ghost var melodyEvents := events;
    currentTime := 0.0;
    var j := 0;
    while j < |c.chords|
      invariant 0 <= j <= |c.chords|
      invariant events == melodyEvents + ChordEvents(c.chords[..j]) && currentTime == ChordTime(c.chords[..j])
    {
      var chord := c.chords[j];
      ghost var done := c.chords[..j + 1];
      assert done[..j] == c.chords[..j];
      events := PushChord(events, chord, currentTime);
      currentTime := currentTime + chord.duration;
      j := j + 1;
      assert done == c.chords[..j];
    }
    assert c.chords[..j] == c.chords;
    m := Midi(events, currentTime, c.metadata);
  }

  /** Melody event i is note i, timed at the sum of the durations of the notes before it. */
  lemma {:induction false} MelodyEventAt(melody: seq<MelodyNote>, i: nat)
    requires i < |melody|
    ensures |MelodyEvents(melody)| == |melody|
    ensures MelodyEvents(melody)[i] == NoteOn(MelodyTime(melody[..i]), melody[i].note, melody[i].octave, melody[i].duration)
  {
    var front := melody[..|melody| - 1];
    if i < |melody| - 1 {
      MelodyEventAt(front, i);
      assert front[..i] == melody[..i];
    } else {
      MelodyEventCount(front);
    }
  }

  lemma {:induction false} MelodyEventCount(melody: seq<MelodyNote>)
    ensures |MelodyEvents(melody)| == |melody|
  {
    if melody != [] {
      MelodyEventCount(melody[..|melody| - 1]);
    }
  }

  /** The chords contribute one event per note. */
  lemma {:induction false} ChordEventCount(chords: seq<Chord>)
    ensures |ChordEvents(chords)| == NoteCount(chords)
  {
    if chords != [] {
      ChordEventCount(chords[..|chords| - 1]);
    }
  }

  /** A progression of triads holds three notes per chord. */
  lemma {:induction false} TriadNoteCount(chords: seq<Chord>)
    requires forall k :: 0 <= k < |chords| ==> |chords[k].notes| == 3
    ensures NoteCount(chords) == 3 * |chords|
  {
    if chords != [] {
      TriadNoteCount(chords[..|chords| - 1]);
    }
  }

  /**
   * The events of a generated composition: every melody note, then three
   * events per chord; the melody's events come first, in order, each at the
   * time of the notes before it; and the returned duration counts the
   * chords only.
   */
  lemma GeneratedEvents(c: Composition, m: Midi, chordLength: int, key: string)
    requires c.chords == Progression(chordLength, key)
    requires m.events == MelodyEvents(c.melody) + ChordEvents(c.chords) && m.duration == ChordTime(c.chords)
    ensures |m.events| == |c.melody| + 3 * |c.chords|
    ensures forall i :: 0 <= i < |c.melody| ==>
              m.events[i] == NoteOn(MelodyTime(c.melody[..i]), c.melody[i].note, c.melody[i].octave, c.melody[i].duration)
    ensures m.duration == ChordTime(c.chords)
  {
    MelodyEventCount(c.melody);
    ChordEventCount(c.chords);
    ProgressionAt(chordLength, key);
    TriadNoteCount(c.chords);
    forall i | 0 <= i < |c.melody|
      ensures m.events[i] == NoteOn(MelodyTime(c.melody[..i]), c.melody[i].note, c.melody[i].octave, c.melody[i].duration)
    {
      MelodyEventAt(c.melody, i);
    }
  }
}
