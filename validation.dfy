/**
 * Input validation (ValidationUtil): the password complexity rule, the e-mail
 * and clock-time recognisers, and the decision each console prompt takes on
 * one line of input. The prompting loop itself is not modelled: each
 * `Read...Line` function says what the prompt does with a single line read
 * from the console, either returning an answer or asking again.
 */
module Validation {
  import opened Common
  import opened Text

  const MaxPasswordLength := 20
  const MinLetters := 4
  const MinDigits := 3
  const MinSpecials := 1

  predicate IsLetter(c: char) {
    'a' <= c <= 'z' || 'A' <= c <= 'Z'
  }

  /** The classes the password check sorts characters into, tested letter first, then digit. */
  datatype CharClass = Letter | Digit | Special

  function ClassOf(c: char): CharClass {
    if IsLetter(c) then Letter else if IsDigitChar(c) then Digit else Special
  }

  /** The number of characters of `s` in class `k`. */
  function Count(s: string, k: CharClass): nat {
    if s == [] then 0 else Count(s[..|s| - 1], k) + (if ClassOf(s[|s| - 1]) == k then 1 else 0)
  }

  /** Every character is counted in exactly one class. */
  lemma {:induction false} CountsPartition(s: string)
    ensures Count(s, Letter) + Count(s, Digit) + Count(s, Special) == |s|
  {
    if s != [] {
      CountsPartition(s[..|s| - 1]);
    }
  }

  lemma {:induction false} CountAppend(a: string, b: string, k: CharClass)
    ensures Count(a + b, k) == Count(a, k) + Count(b, k)
  {
    if b == [] {
      assert a + b == a;
    } else {
      assert (a + b)[..|a + b| - 1] == a + b[..|b| - 1];
      CountAppend(a, b[..|b| - 1], k);
    }
  }

  /** The complexity rule of a non-null password. */
  predicate IsComplex(p: string) {
    && |p| <= MaxPasswordLength
    && Count(p, Letter) >= MinLetters
    && Count(p, Digit) >= MinDigits
    && Count(p, Special) >= MinSpecials
  }

  /** isValidPassword: null and over-long passwords are rejected before any counting. */
  method IsValidPassword(password: Option<string>) returns (ok: bool)
    ensures ok <==> password.Some? && IsComplex(password.value)
  {
    if password.None? || |password.value| > MaxPasswordLength {
      return false;
    }
    var p := password.value;
    var letters, digits, specials := 0, 0, 0;
    for i := 0 to |p|
      invariant letters == Count(p[..i], Letter)
      invariant digits == Count(p[..i], Digit)
      invariant specials == Count(p[..i], Special)
    {
      assert p[..i + 1][..i] == p[..i];
      var c := p[i];
      if IsLetter(c) {
        letters := letters + 1;
      } else if IsDigitChar(c) {
        digits := digits + 1;
      } else {
        specials := specials + 1;
      }
    }
    assert p[..|p|] == p;
    ok := letters >= MinLetters && digits >= MinDigits && specials >= MinSpecials;
  }

  /** An accepted password has between 8 and 20 characters. */
  lemma ComplexPasswordLength(p: string)
    requires IsComplex(p)
    ensures MinLetters + MinDigits + MinSpecials <= |p| <= MaxPasswordLength
  {
    CountsPartition(p);
  }

  /** A string whose characters all lie in class `k` counts its whole length there and nothing elsewhere. */
  lemma {:induction false} CountUniform(s: string, k: CharClass)
    requires forall i :: 0 <= i < |s| ==> ClassOf(s[i]) == k
    ensures forall k' :: Count(s, k') == if k' == k then |s| else 0
  {
    if s != [] {
      CountUniform(s[..|s| - 1], k);
    }
  }

  /** Both boundaries are reachable: 4 letters, 3 digits and 1 symbol (length 8),
      and a password of exactly 20 characters. */
  lemma BoundaryPasswordsAccepted()
    ensures IsComplex("abcd123!")
    ensures IsComplex("abcdefghijklmnop123!") && |"abcdefghijklmnop123!"| == MaxPasswordLength
  {
    var letters4, letters12, digits, symbol := "abcd", "efghijklmnop", "123", "!";
    CountUniform(letters4, Letter);
    CountUniform(letters12, Letter);
    CountUniform(digits, Digit);
    CountUniform(symbol, Special);
    forall k: CharClass
      ensures Count("abcd123!", k) == Count(letters4, k) + Count(digits, k) + Count(symbol, k)
      ensures Count("abcdefghijklmnop123!", k)
           == Count(letters4, k) + Count(letters12, k) + Count(digits, k) + Count(symbol, k)
    {
      assert "abcd123!" == letters4 + digits + symbol;
      CountAppend(letters4, digits, k);
      CountAppend(letters4 + digits, symbol, k);
      assert "abcdefghijklmnop123!" == letters4 + letters12 + digits + symbol;
      CountAppend(letters4, letters12, k);
      CountAppend(letters4 + letters12, digits, k);
      CountAppend(letters4 + letters12 + digits, symbol, k);
    }
  }

  // ---------------------------------------------------------------------------
  // E-mail: ^[a-zA-Z0-9_+&*-]+(?:\.[a-zA-Z0-9_+&*-]+)*@(?:[a-zA-Z0-9-]+\.)+[a-zA-Z]{2,7}$

  predicate IsLocalChar(c: char) {
    IsLetter(c) || IsDigitChar(c) || c == '_' || c == '+' || c == '&' || c == '*' || c == '-'
  }

  predicate IsLabelChar(c: char) {
    IsLetter(c) || IsDigitChar(c) || c == '-'
  }

  /** The two atom alphabets of the pattern: the local part and the domain labels. */
  datatype Alphabet = LocalPart | DomainLabel

  predicate InAlphabet(c: char, a: Alphabet) {
    match a
    case LocalPart => IsLocalChar(c)
    case DomainLabel => IsLabelChar(c)
  }

  /** `A+(\.A+)*`: one or more non-empty runs over the alphabet, separated by single dots. */
  predicate DotSeparated(s: string, a: Alphabet) {
    && |s| > 0 && s[0] != '.' && s[|s| - 1] != '.'
    && (forall i :: 0 <= i < |s| ==> s[i] == '.' || InAlphabet(s[i], a))
    && (forall i :: 0 <= i < |s| - 1 ==> s[i] == '.' ==> s[i + 1] != '.')
  }

  /** `[a-zA-Z]{2,7}`. */
  predicate IsTopLevel(t: string) {
    2 <= |t| <= 7 && forall i :: 0 <= i < |t| ==> IsLetter(t[i])
  }

  /** `String.indexOf`. */
  function FirstIndex(s: string, c: char): (r: Option<nat>)
    ensures r.Some? ==> r.value < |s| && s[r.value] == c && forall j :: 0 <= j < r.value ==> s[j] != c
    ensures r.None? ==> forall j :: 0 <= j < |s| ==> s[j] != c
  {
    if s == [] then None
    else if s[0] == c then Some(0)
    else match FirstIndex(s[1..], c)
      case None => None
      case Some(i) => Some(i + 1)
  }

  /** `String.lastIndexOf`. */
  function LastIndex(s: string, c: char): (r: Option<nat>)
    ensures r.Some? ==> r.value < |s| && s[r.value] == c && forall j :: r.value < j < |s| ==> s[j] != c
    ensures r.None? ==> forall j :: 0 <= j < |s| ==> s[j] != c
  {
    if s == [] then None
    else if s[|s| - 1] == c then Some(|s| - 1)
    else LastIndex(s[..|s| - 1], c)
  }

  /** `(?:[a-zA-Z0-9-]+\.)+[a-zA-Z]{2,7}`: dotted labels, then a top-level label after the last dot. */
  predicate IsDomain(d: string) {
    match LastIndex(d, '.')
    case None => false
    case Some(k) => DotSeparated(d[..k], DomainLabel) && IsTopLevel(d[k + 1..])
  }

  /** isValidEmail. No alphabet contains '@', so the first '@' is the only one. */
  predicate IsValidEmail(email: Option<string>) {
    match email
    case None => false
    case Some(e) =>
      match FirstIndex(e, '@')
      case None => false
      case Some(at) => DotSeparated(e[..at], LocalPart) && IsDomain(e[at + 1..])
  }

  /** The pattern read as a decomposition: local part '@' labels '.' top-level label. */
  ghost predicate MatchesEmailPattern(e: string) {
    exists at, k ::
      && 0 <= at < k < |e| && e[at] == '@' && e[k] == '.'
      && DotSeparated(e[..at], LocalPart)
      && DotSeparated(e[at + 1..k], DomainLabel)
      && IsTopLevel(e[k + 1..])
  }

  lemma FirstIndexAt(s: string, c: char, i: nat)
    requires i < |s| && s[i] == c && forall j :: 0 <= j < i ==> s[j] != c
    ensures FirstIndex(s, c) == Some(i)
  {
  }

  lemma LastIndexAt(s: string, c: char, i: nat)
    requires i < |s| && s[i] == c && forall j :: i < j < |s| ==> s[j] != c
    ensures LastIndex(s, c) == Some(i)
  {
  }

  /** A character that is neither a dot nor in the alphabet does not occur in a dotted run. */
  lemma DotSeparatedExcludes(s: string, a: Alphabet, c: char)
    requires DotSeparated(s, a) && c != '.' && !InAlphabet(c, a)
    ensures forall i :: 0 <= i < |s| ==> s[i] != c
  {
  }

  /** The positions the recogniser settles on: the first '@' and the last '.' after it. */
  lemma EmailParts(e: string) returns (at: nat, k: nat)
    requires IsValidEmail(Some(e))
    ensures 0 <= at < k < |e| && e[at] == '@' && e[k] == '.'
    ensures DotSeparated(e[..at], LocalPart)
    ensures DotSeparated(e[at + 1..k], DomainLabel)
    ensures IsTopLevel(e[k + 1..])
  {
    at := FirstIndex(e, '@').value;
    var d := e[at + 1..];
    var k' := LastIndex(d, '.').value;
    k := at + 1 + k';
    assert e[at + 1..k] == d[..k'];
    assert e[k + 1..] == d[k' + 1..];
    assert e[k] == d[k'];
  }

  lemma EmailRecogniserComplete(e: string, at: nat, k: nat)
    requires 0 <= at < k < |e| && e[at] == '@' && e[k] == '.'
    requires DotSeparated(e[..at], LocalPart)
    requires DotSeparated(e[at + 1..k], DomainLabel)
    requires IsTopLevel(e[k + 1..])
    ensures IsValidEmail(Some(e))
  {
    DotSeparatedExcludes(e[..at], LocalPart, '@');
    assert forall j :: 0 <= j < at ==> e[j] == e[..at][j];
    FirstIndexAt(e, '@', at);
    var d := e[at + 1..];
    var k' := k - at - 1;
    assert d[k'] == '.';
    assert forall j :: k' < j < |d| ==> d[j] == e[k + 1..][j - k' - 1];
    LastIndexAt(d, '.', k');
    assert d[..k'] == e[at + 1..k];
    assert d[k' + 1..] == e[k + 1..];
  }

  lemma EmailRecogniserMatchesPattern(e: string)
    ensures IsValidEmail(Some(e)) <==> MatchesEmailPattern(e)
  {
    if IsValidEmail(Some(e)) {
      var at, k := EmailParts(e);
    }
    if MatchesEmailPattern(e) {
      var at, k :| && 0 <= at < k < |e| && e[at] == '@' && e[k] == '.'
                   && DotSeparated(e[..at], LocalPart)
                   && DotSeparated(e[at + 1..k], DomainLabel)
                   && IsTopLevel(e[k + 1..]);
      EmailRecogniserComplete(e, at, k);
    }
  }

  /** The domain part of a decomposed address holds no '@'. */
  lemma DomainHasNoAt(e: string, at: nat, k: nat)
    requires 0 <= at < k < |e| && e[k] == '.'
    requires DotSeparated(e[at + 1..k], DomainLabel)
    requires IsTopLevel(e[k + 1..])
    ensures forall i :: at < i < |e| ==> e[i] != '@'
  {
    DotSeparatedExcludes(e[at + 1..k], DomainLabel, '@');
    forall i | at < i < |e| ensures e[i] != '@' {
      if i < k {
        assert e[i] == e[at + 1..k][i - at - 1];
      } else if i > k {
        assert e[i] == e[k + 1..][i - k - 1];
      }
    }
  }

  /** A string with one '@' at `at` and none elsewhere counts exactly one '@'. */
  lemma SingleAt(e: string, at: nat)
    requires at < |e| && e[at] == '@'
    requires forall i :: 0 <= i < |e| && i != at ==> e[i] != '@'
    ensures Occurrences(e, '@') == 1
  {
    var local, rest := e[..at], e[at + 1..];
    assert e == local + [e[at]] + rest;
    assert forall i :: 0 <= i < |rest| ==> rest[i] == e[at + 1 + i];
    OccurrencesAbsent(local, '@');
    OccurrencesAbsent(rest, '@');
    OccurrencesAppend(local, [e[at]], '@');
    OccurrencesAppend(local + [e[at]], rest, '@');
    assert Occurrences([e[at]], '@') == 1 by {
      assert [e[at]][..0] == [];
    }
  }

  /** An accepted address has exactly one '@', a '.' somewhere after it, and ends in
      a dot followed by 2 to 7 ASCII letters. */
  lemma ValidEmailShape(e: string)
    requires IsValidEmail(Some(e))
    ensures Occurrences(e, '@') == 1
    ensures exists at, k :: 0 <= at < k < |e| && e[at] == '@' && e[k] == '.'
    ensures exists k :: |e| - 8 <= k <= |e| - 3 && 0 <= k && e[k] == '.'
                        && forall i :: k < i < |e| ==> IsLetter(e[i])
  {
    var at, k := EmailParts(e);
    DotSeparatedExcludes(e[..at], LocalPart, '@');
    DomainHasNoAt(e, at, k);
    forall i | 0 <= i < |e| && i != at ensures e[i] != '@' {
      if i < at {
        assert e[i] == e[..at][i];
      }
    }
    SingleAt(e, at);
    TopLevelTail(e, k);
    assert 0 <= at < k < |e| && e[at] == '@' && e[k] == '.';
    assert |e| - 8 <= k <= |e| - 3;
  }

  lemma TopLevelTail(e: string, k: nat)
    requires k < |e| && IsTopLevel(e[k + 1..])
    ensures forall i :: k < i < |e| ==> IsLetter(e[i])
  {
    forall i | k < i < |e| ensures IsLetter(e[i]) {
      assert e[i] == e[k + 1..][i - k - 1];
    }
  }

  // ---------------------------------------------------------------------------
  // Clock time: ^([01]?[0-9]|2[0-3]):[0-5][0-9]$

  /** TIME_PATTERN, alternative by alternative: `H:MM`, then `[01]H:MM` or `2[0-3]:MM`. */
  predicate IsTimeOfDay(s: string) {
    || (|s| == 4 && IsDigitChar(s[0]) && s[1] == ':' && '0' <= s[2] <= '5' && IsDigitChar(s[3]))
    || (&& |s| == 5
        && ((('0' <= s[0] <= '1') && IsDigitChar(s[1])) || (s[0] == '2' && '0' <= s[1] <= '3'))
        && s[2] == ':' && '0' <= s[3] <= '5' && IsDigitChar(s[4]))
  }

  /** What the pattern means: one or two hour digits denoting 0..23, a colon, and
      exactly two minute digits denoting 0..59. */
  ghost predicate DenotesClockTime(s: string) {
    && (|s| == 4 || |s| == 5)
    && s[|s| - 3] == ':'
    && AllDigits(s[..|s| - 3]) && DigitsValue(s[..|s| - 3]) <= 23
    && AllDigits(s[|s| - 2..]) && DigitsValue(s[|s| - 2..]) <= 59
  }

  lemma OneDigitValue(t: string)
    requires |t| == 1 && AllDigits(t)
    ensures DigitsValue(t) == DigitValue(t[0])
  {
    assert t[..0] == [];
  }

  lemma TwoDigitValue(t: string)
    requires |t| == 2 && AllDigits(t)
    ensures DigitsValue(t) == 10 * DigitValue(t[0]) + DigitValue(t[1])
  {
    OneDigitValue(t[..1]);
  }

  lemma TimePatternMeaning(s: string)
    ensures IsTimeOfDay(s) <==> DenotesClockTime(s)
  {
    if |s| == 4 || |s| == 5 {
      var hour, minute := s[..|s| - 3], s[|s| - 2..];
      assert forall i :: 0 <= i < |hour| ==> hour[i] == s[i];
      assert forall i :: 0 <= i < |minute| ==> minute[i] == s[|s| - 2 + i];
      if AllDigits(minute) {
        TwoDigitValue(minute);
      }
      if AllDigits(hour) {
        if |s| == 4 {
          OneDigitValue(hour);
        } else {
          TwoDigitValue(hour);
        }
      }
    }
  }

  // ---------------------------------------------------------------------------
  // One line at a prompt

  /** What a prompt does with one line: return a value, or print a hint and read again. */
  datatype Reply<T> = Answer(value: T) | Reprompt

  /** readValidInt: with going back allowed, "0" returns -1 before any range check;
      otherwise a parsed value is returned only inside [min, max]. */
  function ReadIntLine(line: string, min: int, max: int, allowBack: bool): (r: Reply<int>)
    ensures allowBack && Trim(line) == "0" ==> r == Answer(-1)
    ensures !(allowBack && Trim(line) == "0") ==>
              (r.Answer? <==> (ParseInt(Trim(line)).Some? && min <= ParseInt(Trim(line)).value <= max))
    ensures !(allowBack && Trim(line) == "0") && r.Answer? ==> ParseInt(Trim(line)) == Some(r.value)
    ensures r.Answer? ==> r.value == -1 || min <= r.value <= max
  {
    var input := Trim(line);
    if allowBack && input == "0" then Answer(-1)
    else match ParseInt(input)
      case None => Reprompt
      case Some(v) => if min <= v && v <= max then Answer(v) else Reprompt
  }

  /** readValidString: "back" in any case returns null when going back is allowed;
      otherwise the trimmed line is returned iff it is empty and that is allowed,
      or it has at least minLength characters. */
  function ReadStringLine(line: string, minLength: int, allowEmpty: bool, allowBack: bool): (r: Reply<Option<string>>)
    ensures r == Answer(None) <==> allowBack && EqualsIgnoreCase("back", Trim(line))
    ensures !(allowBack && EqualsIgnoreCase("back", Trim(line))) ==>
              (r.Answer? <==> ((allowEmpty && Trim(line) == "") || |Trim(line)| >= minLength))
    ensures r.Answer? && r.value.Some? ==> r.value.value == Trim(line)
  {
    var input := Trim(line);
    if allowBack && EqualsIgnoreCase("back", input) then Answer(None)
    else if (allowEmpty && input == "") || |input| >= minLength then Answer(Some(input))
    else Reprompt
  }

  /** readValidTime: "back" as above; otherwise the trimmed line itself, unpadded, iff
      it matches TIME_PATTERN. */
  function ReadTimeLine(line: string, allowBack: bool): (r: Reply<Option<string>>)
    ensures r == Answer(None) <==> allowBack && EqualsIgnoreCase("back", Trim(line))
    ensures !(allowBack && EqualsIgnoreCase("back", Trim(line))) ==> (r.Answer? <==> IsTimeOfDay(Trim(line)))
    ensures r.Answer? && r.value.Some? ==> r.value.value == Trim(line) && DenotesClockTime(r.value.value)
  {
    var input := Trim(line);
    if allowBack && EqualsIgnoreCase("back", input) then Answer(None)
    else if IsTimeOfDay(input) then (TimePatternMeaning(input); Answer(Some(input)))
    else Reprompt
  }

  /** readYesNo: exactly "Y" or "y" (after trimming) answers yes, exactly "N" or "n"
      answers no, and every other line asks again. */
  function ReadYesNoLine(line: string): (r: Reply<bool>)
    ensures r == Answer(true) <==> Trim(line) == "Y" || Trim(line) == "y"
    ensures r == Answer(false) <==> Trim(line) == "N" || Trim(line) == "n"
    ensures r == Reprompt <==> Trim(line) !in {"Y", "y", "N", "n"}
  {
    UpperSingle(Trim(line), 'Y');
    UpperSingle(Trim(line), 'N');
    var input := ToUpper(Trim(line));
    if input == "Y" then Answer(true)
    else if input == "N" then Answer(false)
    else Reprompt
  }

  lemma UpperSingle(t: string, c: char)
    requires 'A' <= c <= 'Z'
    ensures ToUpper(t) == [c] <==> (t == [c] || t == [(c as int + 32) as char])
  {
    if ToUpper(t) == [c] {
      assert |t| == 1 && UpperChar(t[0]) == c;
      assert t == [t[0]];
    }
  }

  /** Surrounding blanks never change a prompt's decision. */
  lemma PromptsIgnorePadding(line: string, min: int, max: int, minLength: int, allowEmpty: bool, allowBack: bool)
    ensures ReadIntLine(Trim(line), min, max, allowBack) == ReadIntLine(line, min, max, allowBack)
    ensures ReadStringLine(Trim(line), minLength, allowEmpty, allowBack) == ReadStringLine(line, minLength, allowEmpty, allowBack)
    ensures ReadTimeLine(Trim(line), allowBack) == ReadTimeLine(line, allowBack)
    ensures ReadYesNoLine(Trim(line)) == ReadYesNoLine(line)
  {
    TrimIdempotent(line);
  }
}
