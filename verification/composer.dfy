/** Code generation: a template of character classes that meets a minimum
    count per class, then one character drawn from each slot's alphabet.
    Every call to Random.Next is a nondeterministic choice within the range
    Random.Next may return. */
module Composer {
  import opened Outcome

  /** The four character classes (enum Types). */
  datatype CharClass = UpperCase | LowerCase | Digit | Special

  /** Enum.GetValues(typeof(Types)): the classes a placement draw ranges over. */
  const AllClasses: set<CharClass> := {UpperCase, LowerCase, Digit, Special}

  const UpperAlphabet: string := "ABCDEFGHIJKLMNOPQRSTUVWXYZ"
  const LowerAlphabet: string := "abcdefghijklmnopqrstuvwxyz"
  const DigitAlphabet: string := "0123456789"
  const SpecialAlphabet: string := "!@#$%^&*()-_=+[]{}|;:,.<>?"

  /** The characters a slot of class `k` is rendered from. */
  function Alphabet(k: CharClass): (a: string)
    ensures |a| > 0
  {
    match k
    case UpperCase => UpperAlphabet
    case LowerCase => LowerAlphabet
    case Digit => DigitAlphabet
    case Special => SpecialAlphabet
  }

  /** Reference classification of a character, by ASCII range for letters and
      digits; None for a character of no class. */
  function ClassOfChar(ch: char): Option<CharClass>
  {
    if 'A' <= ch <= 'Z' then Some(UpperCase)
    else if 'a' <= ch <= 'z' then Some(LowerCase)
    else if '0' <= ch <= '9' then Some(Digit)
    else if ch in SpecialAlphabet then Some(Special)
    else None
  }

  /** The four alphabets are disjoint and agree with the reference
      classification: a character of Alphabet(k) is classified as k. */
  lemma ClassOfAlphabetChar(k: CharClass, ch: char)
    requires ch in Alphabet(k)
    ensures ClassOfChar(ch) == Some(k)
  {
    match k
    case UpperCase => assert 'A' <= ch <= 'Z';
    case LowerCase => assert 'a' <= ch <= 'z';
    case Digit => assert '0' <= ch <= '9';
    case Special =>
      assert !('A' <= ch <= 'Z') && !('a' <= ch <= 'z') && !('0' <= ch <= '9');
  }

  /** The range of Random.Next(0, n): [0, n), and 0 when n is 0. */
  function DrawBound(n: nat): nat
  {
    if n == 0 then 1 else n
  }

  predicate IsDraw(n: nat, d: int)
  {
    0 <= d < DrawBound(n)
  }

  // ---------------------------------------------------------------------------
  // Configuration (the static fields of the manager)

  datatype Config = Config(
    validityInSeconds: int,
    codeLength: int,
    upperAmount: int,
    lowerAmount: int,
    digitAmount: int,
    specialAmount: int,
    addHours: int,
    defaultChars: seq<CharClass>)

  /** The static initialisers: 600 s validity, 6 characters, one of each
      class, 3 hours offset, padding from LowerCase only. */
  const DefaultConfig: Config := Config(600, 6, 1, 1, 1, 1, 3, [LowerCase])

  /** The configured minimum count of class `k`. */
  function Amount(c: Config, k: CharClass): int
  {
    match k
    case UpperCase => c.upperAmount
    case LowerCase => c.lowerAmount
    case Digit => c.digitAmount
    case Special => c.specialAmount
  }

  /** How many slots of a class the placement phase can ever assign: a class
      with a negative minimum is never drawn. */
  function Cap(a: int): nat
  {
    if a < 0 then 0 else a
  }

  predicate NonNegative(c: Config)
  {
    c.upperAmount >= 0 && c.lowerAmount >= 0 && c.digitAmount >= 0 && c.specialAmount >= 0
  }

  /** The sum of the four minimums. */
  function Required(c: Config): int
  {
    c.upperAmount + c.lowerAmount + c.digitAmount + c.specialAmount
  }

  function CappedRequired(c: Config): nat
  {
    Cap(c.upperAmount) + Cap(c.lowerAmount) + Cap(c.digitAmount) + Cap(c.specialAmount)
  }

  /** Exactly the configurations for which the placement phase terminates:
      each position must find some class still below its minimum. With all
      minimums 0, or with a negative minimum (whose counter never equals it,
      so the phase never breaks) and too few positive minimums to fill the
      template, the rejection loop spins for ever. */
  predicate PlacementHalts(c: Config)
  {
    || c.codeLength <= 0
    || (NonNegative(c) && Required(c) >= 1)
    || CappedRequired(c) >= c.codeLength
  }

  /** Number of leading positions the placement phase assigns: it breaks
      right after the position at which every minimum is met, which happens
      only when the minimums are non-negative and fit in the code. */
  function PlacedLength(c: Config): nat
    requires c.codeLength >= 0
  {
    if NonNegative(c) && Required(c) <= c.codeLength then Required(c) else c.codeLength
  }

  /** CreateTemplate throws: for a negative length, or when trailing positions
      must be padded from an empty DefaultChars. */
  predicate GenerationFails(c: Config)
  {
    c.codeLength < 0 || (PlacedLength(c) < c.codeLength && |c.defaultChars| == 0)
  }

  // ---------------------------------------------------------------------------
  // Counting

  /** 1 when `b` holds, else 0: one step of a count. */
  function Indicator(b: bool): nat
  {
    if b then 1 else 0
  }

  /** Number of slots of `t` holding class `k`. */
  function CountOf(t: seq<Option<CharClass>>, k: CharClass): (n: nat)
    ensures n <= |t|
  {
    if |t| == 0 then 0
    else CountOf(t[..|t| - 1], k) + Indicator(t[|t| - 1] == Some(k))
  }

  /** Number of characters of `v` that the reference classification puts in `k`. */
  function CharCount(v: string, k: CharClass): (n: nat)
    ensures n <= |v|
  {
    if |v| == 0 then 0
    else CharCount(v[..|v| - 1], k) + Indicator(ClassOfChar(v[|v| - 1]) == Some(k))
  }

  lemma CountOfSnoc(s: seq<Option<CharClass>>, x: Option<CharClass>, k: CharClass)
    ensures CountOf(s + [x], k) == CountOf(s, k) + Indicator(x == Some(k))
  {
    assert (s + [x])[..|s|] == s;
  }

  /** A prefix never holds more slots of a class than the whole template. */
  lemma {:induction false} CountOfPrefix(t: seq<Option<CharClass>>, n: nat, k: CharClass)
    requires n <= |t|
    ensures CountOf(t[..n], k) <= CountOf(t, k)
  {
    if n < |t| {
      CountOfPrefix(t[..|t| - 1], n, k);
      assert t[..|t| - 1][..n] == t[..n];
    } else {
      assert t[..n] == t;
    }
  }

  /** In a template with every slot assigned, the four class counts add up
      to its length. */
  lemma {:induction false} CountsCoverFullTemplate(t: seq<Option<CharClass>>)
    requires forall i | 0 <= i < |t| :: t[i].Some?
    ensures CountOf(t, UpperCase) + CountOf(t, LowerCase) + CountOf(t, Digit) + CountOf(t, Special) == |t|
  {
    if |t| > 0 {
      var n := |t| - 1;
      CountsCoverFullTemplate(t[..n]);
      assert CountOf(t, UpperCase) == CountOf(t[..n], UpperCase) + Indicator(t[n] == Some(UpperCase));
      assert CountOf(t, LowerCase) == CountOf(t[..n], LowerCase) + Indicator(t[n] == Some(LowerCase));
      assert CountOf(t, Digit) == CountOf(t[..n], Digit) + Indicator(t[n] == Some(Digit));
      assert CountOf(t, Special) == CountOf(t[..n], Special) + Indicator(t[n] == Some(Special));
      match t[n].value
      case UpperCase =>
      case LowerCase =>
      case Digit =>
      case Special =>
    }
  }

  // ---------------------------------------------------------------------------
  // The template

  /** AllFull: every slot of the template is assigned. */
  function AllFull(t: seq<Option<CharClass>>): (full: bool)
    ensures full <==> forall i | 0 <= i < |t| :: t[i].Some?
  {
    |t| == 0 || (t[0].Some? && AllFull(t[1..]))
  }

  /** What CreateTemplate promises about the template it returns, for every
      sequence of random draws: its length is CodeLength and every slot is
      assigned; the leading PlacedLength(c) slots never hold more of a class
      than its minimum and, when the minimums fit, hold exactly the minimums;
      every later slot holds a class of DefaultChars. */
  ghost predicate Layout(c: Config, t: seq<Option<CharClass>>)
  {
    && c.codeLength >= 0
    && |t| == c.codeLength
    && (forall i | 0 <= i < |t| :: t[i].Some?)
    && (forall k :: CountOf(t[..PlacedLength(c)], k) <= Cap(Amount(c, k)))
    && (NonNegative(c) && Required(c) <= c.codeLength ==>
          forall k :: CountOf(t[..Required(c)], k) == Amount(c, k))
    && (forall i | PlacedLength(c) <= i < |t| :: t[i].Some? && t[i].value in c.defaultChars)
  }

  /** When the minimums are non-negative and fit, every class occurs at least
      its minimum number of times. */
  lemma LayoutMeetsMinimums(c: Config, t: seq<Option<CharClass>>, k: CharClass)
    requires Layout(c, t)
    requires NonNegative(c) && Required(c) <= c.codeLength
    ensures CountOf(t, k) >= Amount(c, k)
  {
    CountOfPrefix(t, Required(c), k);
  }

  /** Minimums that do not fit in the code are not reported: the template is
      still full, and some class stays below its minimum. Negative minimums
      are included: the counts add up to CodeLength, below their sum. */
  lemma OverfullLayoutMissesMinimum(c: Config, t: seq<Option<CharClass>>)
    requires Layout(c, t)
    requires Required(c) > c.codeLength
    ensures exists k :: CountOf(t, k) < Amount(c, k)
  {
    assert PlacedLength(c) == c.codeLength;
    assert t[..PlacedLength(c)] == t;
    CountsCoverFullTemplate(t);
    if CountOf(t, UpperCase) < c.upperAmount {
      assert CountOf(t, UpperCase) < Amount(c, UpperCase);
    } else if CountOf(t, LowerCase) < c.lowerAmount {
      assert CountOf(t, LowerCase) < Amount(c, LowerCase);
    } else if CountOf(t, Digit) < c.digitAmount {
      assert CountOf(t, Digit) < Amount(c, Digit);
    } else {
      assert CountOf(t, Special) < Amount(c, Special);
    }
  }

  /** The draw of the placement phase's rejection loop succeeds on class `k`. */
  predicate BelowMinimum(c: Config, k: CharClass, upper: int, lower: int, digit: int, special: int)
  {
    match k
    case UpperCase => upper < c.upperAmount
    case LowerCase => lower < c.lowerAmount
    case Digit => digit < c.digitAmount
    case Special => special < c.specialAmount
  }

  /** Every class count equals its minimum: the condition on which the
      placement phase breaks. */
  predicate AllMet(c: Config, upper: int, lower: int, digit: int, special: int)
  {
    upper == c.upperAmount && lower == c.lowerAmount && digit == c.digitAmount && special == c.specialAmount
  }

  /** In a configuration where placement halts, at every position the
      rejection loop has a class it can accept. */
  lemma PlacementCanDraw(c: Config, index: int, upper: int, lower: int, digit: int, special: int)
    requires PlacementHalts(c)
    requires 0 <= index < c.codeLength
    requires 0 <= upper <= Cap(c.upperAmount) && 0 <= lower <= Cap(c.lowerAmount)
    requires 0 <= digit <= Cap(c.digitAmount) && 0 <= special <= Cap(c.specialAmount)
    requires upper + lower + digit + special == index
    requires 0 < index ==> !AllMet(c, upper, lower, digit, special)
    ensures exists k :: k in AllClasses && BelowMinimum(c, k, upper, lower, digit, special)
  {
    if BelowMinimum(c, UpperCase, upper, lower, digit, special) {
      assert UpperCase in AllClasses;
    } else if BelowMinimum(c, LowerCase, upper, lower, digit, special) {
      assert LowerCase in AllClasses;
    } else if BelowMinimum(c, Digit, upper, lower, digit, special) {
      assert Digit in AllClasses;
    } else {
      assert Special in AllClasses && BelowMinimum(c, Special, upper, lower, digit, special);
    }
  }

  /** The converse of PlacementCanDraw: outside PlacementHalts the placement
      phase never ends. However its counters stand (each within its cap),
      fewer than CodeLength slots are assigned and, once any slot is, the
      break condition fails; each accepted draw raises a counter towards its
      cap, and with every counter at its cap no class is below its minimum,
      so the rejection loop draws for ever. With all minimums 0 that is the
      case from the first position on. */
  lemma PlacementSpins(c: Config, upper: int, lower: int, digit: int, special: int)
    requires !PlacementHalts(c)
    requires 0 <= upper <= Cap(c.upperAmount) && 0 <= lower <= Cap(c.lowerAmount)
    requires 0 <= digit <= Cap(c.digitAmount) && 0 <= special <= Cap(c.specialAmount)
    ensures upper + lower + digit + special < c.codeLength
    ensures 0 < upper + lower + digit + special ==> !AllMet(c, upper, lower, digit, special)
    ensures (forall k :: !BelowMinimum(c, k, upper, lower, digit, special)) <==>
              (upper == Cap(c.upperAmount) && lower == Cap(c.lowerAmount)
               && digit == Cap(c.digitAmount) && special == Cap(c.specialAmount))
  {
    if forall k :: !BelowMinimum(c, k, upper, lower, digit, special) {
      assert !BelowMinimum(c, UpperCase, upper, lower, digit, special);
      assert !BelowMinimum(c, LowerCase, upper, lower, digit, special);
      assert !BelowMinimum(c, Digit, upper, lower, digit, special);
      assert !BelowMinimum(c, Special, upper, lower, digit, special);
    }
  }

  /** Where the placement phase stops: it has assigned `placed` slots, each
      counter within its cap, and it stopped early only with every minimum
      met. Then `placed` is PlacedLength(c), and when the minimums are
      non-negative and fit, every counter equals its minimum. */
  lemma PlacementStopsAt(c: Config, placed: int, upper: int, lower: int, digit: int, special: int)
    requires 0 <= placed <= c.codeLength
    requires 0 <= upper <= Cap(c.upperAmount) && 0 <= lower <= Cap(c.lowerAmount)
    requires 0 <= digit <= Cap(c.digitAmount) && 0 <= special <= Cap(c.specialAmount)
    requires upper + lower + digit + special == placed
    requires !AllMet(c, upper, lower, digit, special) ==> placed == c.codeLength
    ensures placed == PlacedLength(c)
    ensures NonNegative(c) && Required(c) <= c.codeLength ==> AllMet(c, upper, lower, digit, special)
  {
  }

  /** The template after the placement phase: the first `placed` slots are
      assigned, never more of a class than its minimum allows, and exactly the
      minimums when they are non-negative and fit; the rest are unassigned. */
  ghost predicate Placement(c: Config, t: seq<Option<CharClass>>, placed: int)
  {
    && 0 <= placed <= |t|
    && (forall i | 0 <= i < placed :: t[i].Some?)
    && (forall i | placed <= i < |t| :: t[i].None?)
    && (forall k :: CountOf(t[..placed], k) <= Cap(Amount(c, k)))
    && (NonNegative(c) && Required(c) <= placed ==> forall k :: CountOf(t[..placed], k) == Amount(c, k))
  }

  /** The placement loop's state: the first `index` slots are assigned, the
      rest are not, and the four counters count the assigned slots, each
      within the cap of its class. */
  ghost predicate Placing(c: Config, t: seq<Option<CharClass>>, index: int,
                          upper: int, lower: int, digit: int, special: int)
  {
    && 0 <= index <= |t|
    && (forall i | 0 <= i < index :: t[i].Some?)
    && (forall i | index <= i < |t| :: t[i].None?)
    && upper == CountOf(t[..index], UpperCase) && lower == CountOf(t[..index], LowerCase)
    && digit == CountOf(t[..index], Digit) && special == CountOf(t[..index], Special)
    && 0 <= upper <= Cap(c.upperAmount) && 0 <= lower <= Cap(c.lowerAmount)
    && 0 <= digit <= Cap(c.digitAmount) && 0 <= special <= Cap(c.specialAmount)
    && upper + lower + digit + special == index
  }

  /** Assigning a class below its minimum to the next slot and counting it
      keeps the placement state. */
  lemma PlaceNext(c: Config, t: seq<Option<CharClass>>, index: int, k: CharClass,
                  upper: int, lower: int, digit: int, special: int)
    requires Placing(c, t, index, upper, lower, digit, special) && index < |t|
    requires BelowMinimum(c, k, upper, lower, digit, special)
    ensures Placing(c, t[index := Some(k)], index + 1,
                    upper + Indicator(k == UpperCase), lower + Indicator(k == LowerCase),
                    digit + Indicator(k == Digit), special + Indicator(k == Special))
  {
    var t' := t[index := Some(k)];
    assert t'[..index + 1] == t[..index] + [Some(k)];
    CountOfSnoc(t[..index], Some(k), UpperCase);
    CountOfSnoc(t[..index], Some(k), LowerCase);
    CountOfSnoc(t[..index], Some(k), Digit);
    CountOfSnoc(t[..index], Some(k), Special);
  }

  /** The placement loop of CreateTemplate: at each position draw classes
      until one is below its minimum, assign it and count it; break right
      after the position at which every count equals its minimum. Returns
      the loop index as the source leaves it: the position of the break, or
      CodeLength when the loop ran to the end. */
  method PlaceMinimums(c: Config, template: array<Option<CharClass>>) returns (index: int, ghost placed: int)
    requires PlacementHalts(c)
    requires template.Length == c.codeLength
    requires forall i | 0 <= i < template.Length :: template[i].None?
    modifies template
    ensures placed == PlacedLength(c) && Placement(c, template[..], placed)
    ensures placed < c.codeLength ==> index + 1 == placed
  {
    var upper, lower, digit, special := 0, 0, 0, 0;
    index := 0;
    placed := 0;
    while index < c.codeLength
      invariant 0 <= index <= c.codeLength && placed == index
      invariant Placing(c, template[..], index, upper, lower, digit, special)
      invariant 0 < index ==> !AllMet(c, upper, lower, digit, special)
    {
      // The rejection loop can only exit by drawing a class below its minimum.
      PlacementCanDraw(c, index, upper, lower, digit, special);
      var t :| t in AllClasses && BelowMinimum(c, t, upper, lower, digit, special);
      PlaceNext(c, template[..], index, t, upper, lower, digit, special);
      template[index] := Some(t);
      match t {
        case UpperCase => upper := upper + 1;
        case LowerCase => lower := lower + 1;
        case Digit => digit := digit + 1;
        case Special => special := special + 1;
      }
      placed := index + 1;
      if AllMet(c, upper, lower, digit, special) {
        break;
      }
      index := index + 1;
    }
    PlacementStopsAt(c, placed, upper, lower, digit, special);
    PlacementFromCounters(c, template[..], placed, upper, lower, digit, special);
  }

  lemma PlacementFromCounters(c: Config, t: seq<Option<CharClass>>, placed: int,
                              upper: int, lower: int, digit: int, special: int)
    requires Placing(c, t, placed, upper, lower, digit, special)
    requires NonNegative(c) && Required(c) <= placed ==> AllMet(c, upper, lower, digit, special)
    ensures Placement(c, t, placed)
  {
    forall k ensures CountOf(t[..placed], k) <= Cap(Amount(c, k)) {
      match k
      case UpperCase =>
      case LowerCase =>
      case Digit =>
      case Special =>
    }
    if NonNegative(c) && Required(c) <= placed {
      forall k ensures CountOf(t[..placed], k) == Amount(c, k) {
        match k
        case UpperCase =>
        case LowerCase =>
        case Digit =>
        case Special =>
      }
    }
  }

  /** CreateTemplate: the placement phase, then, if the template is not
      full, padding of every following position from DefaultChars. */
  method CreateTemplate(c: Config) returns (r: Result<array<Option<CharClass>>>)
    requires PlacementHalts(c)
    ensures r.Failure? <==> GenerationFails(c)
    ensures r.Failure? ==> r.error == (if c.codeLength < 0 then NegativeLength else NoDefaultClass)
    ensures r.Success? ==> fresh(r.value) && Layout(c, r.value[..])
  {
    if c.codeLength < 0 {
      return Failure(NegativeLength);
    }
    var template := new Option<CharClass>[c.codeLength](_ => None);
    var index, placed := PlaceMinimums(c, template);
    ghost var placedTemplate := template[..];
    ghost var prefix := template[..placed];
    assert placed < c.codeLength ==> template[..][placed].None?;
    if !AllFull(template[..]) {
      index := index + 1;
      while index < c.codeLength
        invariant placed <= index <= c.codeLength
        invariant template[..placed] == prefix
        invariant forall i | placed <= i < index :: template[i].Some? && template[i].value in c.defaultChars
        invariant placed < index ==> |c.defaultChars| > 0
      {
        var d :| 0 <= d < DrawBound(|c.defaultChars|);
        var f := FillFromDefaults(c.defaultChars, d);
        if f.Failure? {
          return Failure(f.error);
        }
        template[index] := Some(f.value);
        index := index + 1;
      }
    }
    LayoutFromPlacement(c, placedTemplate, template[..], placed);
    return Success(template);
  }

  /** A placed prefix followed by DefaultChars padding is a Layout. */
  lemma LayoutFromPlacement(c: Config, t0: seq<Option<CharClass>>, t: seq<Option<CharClass>>, p: int)
    requires c.codeLength >= 0 && |t0| == |t| == c.codeLength
    requires p == PlacedLength(c) && Placement(c, t0, p)
    requires t[..p] == t0[..p]
    requires forall i | p <= i < |t| :: t[i].Some? && t[i].value in c.defaultChars
    ensures Layout(c, t)
  {
    assert forall i | 0 <= i < p :: t[i] == t0[..p][i];
    if NonNegative(c) && Required(c) <= c.codeLength {
      assert p == Required(c);
    }
  }

  /** FillFromDefaults: the class DefaultChars holds at a random index. */
  function FillFromDefaults(defaults: seq<CharClass>, draw: int): (r: Result<CharClass>)
    requires IsDraw(|defaults|, draw)
    ensures r.Success? <==> |defaults| > 0
    ensures r.Success? ==> r.value in defaults
    ensures r.Failure? ==> r.error == NoDefaultClass
  {
    if draw < |defaults| then Success(defaults[draw]) else Failure(NoDefaultClass)
  }

  /** Every class of DefaultChars is the padding class for some draw. */
  lemma EveryDefaultReachable(defaults: seq<CharClass>, k: CharClass)
    requires k in defaults
    ensures exists d :: IsDraw(|defaults|, d) && FillFromDefaults(defaults, d) == Success(k)
  {
    var d :| 0 <= d < |defaults| && defaults[d] == k;
    assert IsDraw(|defaults|, d) && FillFromDefaults(defaults, d) == Success(k);
  }

  // ---------------------------------------------------------------------------
  // Rendering

  /** SetOne: a random character of the slot's alphabet; an unassigned slot
      throws. */
  function SetOne(slot: Option<CharClass>, draw: int): (r: Result<char>)
    requires slot.Some? ==> 0 <= draw < |Alphabet(slot.value)|
    ensures r.Success? <==> slot.Some?
    ensures r.Success? ==> r.value in Alphabet(slot.value) && ClassOfChar(r.value) == slot
    ensures r.Failure? ==> r.error == CannotSetChar
  {
    match slot
    case None => Failure(CannotSetChar)
    case Some(k) =>
      var ch := match k
        case UpperCase => UpperAlphabet[draw]
        case LowerCase => LowerAlphabet[draw]
        case Digit => DigitAlphabet[draw]
        case Special => SpecialAlphabet[draw];
      ClassOfAlphabetChar(k, ch);
      Success(ch)
  }

  /** Every character of a class's alphabet is produced by some draw. */
  lemma SetOneReachesEveryChar(k: CharClass, ch: char)
    requires ch in Alphabet(k)
    ensures exists d :: 0 <= d < |Alphabet(k)| && SetOne(Some(k), d) == Success(ch)
  {
    var d :| 0 <= d < |Alphabet(k)| && Alphabet(k)[d] == ch;
    assert SetOne(Some(k), d) == Success(ch);
  }

  /** `v` renders template `t`: one character per slot, from that slot's alphabet. */
  ghost predicate Renders(t: seq<Option<CharClass>>, v: string)
  {
    && |v| == |t|
    && forall i | 0 <= i < |t| :: t[i].Some? && v[i] in Alphabet(t[i].value)
  }

  /** GenerateValue: build a template, then render each slot with SetOne. */
  method GenerateValue(c: Config) returns (r: Result<string>, ghost template: seq<Option<CharClass>>)
    requires PlacementHalts(c)
    ensures r.Failure? <==> GenerationFails(c)
    ensures r.Failure? ==> r.error == (if c.codeLength < 0 then NegativeLength else NoDefaultClass)
    ensures r.Success? ==> Layout(c, template) && Renders(template, r.value)
  {
    if c.codeLength < 0 {
      return Failure(NegativeLength), [];
    }
    var otp := new char[c.codeLength];
    var created := CreateTemplate(c);
    if created.Failure? {
      return Failure(created.error), [];
    }
    var slots := created.value;
    template := slots[..];
    for i := 0 to slots.Length
      invariant slots[..] == template
      invariant forall j | 0 <= j < i :: otp[j] in Alphabet(template[j].value)
    {
      var d := 0;
      if slots[i].Some? {
        d :| 0 <= d < |Alphabet(slots[i].value)|;
      }
      var ch := SetOne(slots[i], d);
      // A template built by CreateTemplate has no unassigned slot, so SetOne
      // never throws here.
      assert ch.Success?;
      otp[i] := ch.value;
    }
    r := Success(otp[..]);
  }

  // ---------------------------------------------------------------------------
  // Properties of generated codes

  /** Rendering keeps class counts: a rendered code has as many characters of
      each class as its template has slots of that class. */
  lemma {:induction false} RenderedCounts(t: seq<Option<CharClass>>, v: string, k: CharClass)
    requires Renders(t, v)
    ensures CharCount(v, k) == CountOf(t, k)
  {
    if |t| > 0 {
      var n := |t| - 1;
      RenderedCounts(t[..n], v[..n], k);
      ClassOfAlphabetChar(t[n].value, v[n]);
    }
  }

  /** A generated code has CodeLength characters and, when the minimums are
      non-negative and fit, at least the configured number of characters of
      every class. */
  lemma CodeMeetsMinimums(c: Config, t: seq<Option<CharClass>>, v: string, k: CharClass)
    requires Layout(c, t) && Renders(t, v)
    requires NonNegative(c) && Required(c) <= c.codeLength
    ensures |v| == c.codeLength
    ensures CharCount(v, k) >= Amount(c, k)
  {
    RenderedCounts(t, v, k);
    LayoutMeetsMinimums(c, t, k);
  }

  /** With the default configuration the template has six slots: one slot
      of each class in the first four positions, then two LowerCase slots
      of padding. */
  lemma DefaultLayoutShape(t: seq<Option<CharClass>>)
    requires Layout(DefaultConfig, t)
    ensures |t| == 6 && t[4] == Some(LowerCase) && t[5] == Some(LowerCase)
    ensures forall k :: CountOf(t[..4], k) == 1
  {
    var c := DefaultConfig;
    assert NonNegative(c) && Required(c) == 4 && PlacedLength(c) == 4;
    assert t[4].value in [LowerCase] && t[5].value in [LowerCase];
  }

  lemma DefaultTemplateCounts(t: seq<Option<CharClass>>)
    requires |t| == 6 && t[4] == Some(LowerCase) && t[5] == Some(LowerCase)
    requires forall k :: CountOf(t[..4], k) == 1
    ensures CountOf(t, UpperCase) == 1 && CountOf(t, Digit) == 1 && CountOf(t, Special) == 1
    ensures CountOf(t, LowerCase) == 3
  {
    assert t[..5][..4] == t[..4];
    assert t[..6] == t;
    forall k ensures CountOf(t, k) == 1 + (if k == LowerCase then 2 else 0) {
      assert CountOf(t[..5], k) == CountOf(t[..4], k) + Indicator(t[4] == Some(k));
      assert CountOf(t, k) == CountOf(t[..5], k) + Indicator(t[5] == Some(k));
    }
  }

  /** With the default configuration a code has six characters: one upper-case
      letter, one digit, one special character and three lower-case letters
      (two of them from the LowerCase padding in the last two positions). */
  lemma DefaultCodeComposition(t: seq<Option<CharClass>>, v: string)
    requires Layout(DefaultConfig, t) && Renders(t, v)
    ensures |v| == 6
    ensures CharCount(v, UpperCase) == 1 && CharCount(v, Digit) == 1 && CharCount(v, Special) == 1
    ensures CharCount(v, LowerCase) == 3
  {
    DefaultLayoutShape(t);
    DefaultTemplateCounts(t);
    RenderedCounts(t, v, UpperCase);
    RenderedCounts(t, v, LowerCase);
    RenderedCounts(t, v, Digit);
    RenderedCounts(t, v, Special);
  }
}
