/**
 * Answer checking in flash.rb: `normalize_name`, `first_name` and the
 * correctness check of `update_score`. Characters are treated as ASCII:
 * only `A`-`Z` have a lower-case form.
 */
module Names {
  import opened Common

  /** The characters Ruby's `strip` removes: ASCII whitespace and NUL. */
  predicate IsSpace(c: char)
  {
    c == ' ' || c == '\t' || c == '\n' || c == '\U{B}' || c == '\U{C}' || c == '\r' || c == '\0'
  }

  predicate IsUpper(c: char)
  {
    'A' <= c <= 'Z'
  }

  /** The separators of `first_name`'s pattern `/[ _-]/`. */
  predicate IsSeparator(c: char)
  {
    c == ' ' || c == '_' || c == '-'
  }

  /** No whitespace at either end. */
  predicate Stripped(s: string)
  {
    s == [] || (!IsSpace(s[0]) && !IsSpace(s[|s| - 1]))
  }

  function Lower(c: char): (d: char)
    ensures !IsUpper(d)
    ensures IsSpace(d) <==> IsSpace(c)
  {
    if IsUpper(c) then (c as int + 32) as char else c
  }

  /** `downcase`: every upper-case letter replaced by its lower-case form. */
  function Downcase(s: string): (r: string)
    ensures |r| == |s|
  {
    if s == [] then [] else [Lower(s[0])] + Downcase(s[1..])
  }

  /** `lstrip`: `s` without its leading whitespace. */
  function TrimStart(s: string): string
  {
    if s != [] && IsSpace(s[0]) then TrimStart(s[1..]) else s
  }

  /** `rstrip`: `s` without its trailing whitespace. */
  function TrimEnd(s: string): string
  {
    if s != [] && IsSpace(s[|s| - 1]) then TrimEnd(s[..|s| - 1]) else s
  }

  /** `downcase` keeps the length and lower-cases each character in place. */
  lemma {:induction false} DowncaseAt(s: string)
    ensures |Downcase(s)| == |s|
    ensures forall i :: 0 <= i < |s| ==> Downcase(s)[i] == Lower(s[i])
  {
    if s != [] {
      DowncaseAt(s[1..]);
      forall i | 1 <= i < |s| ensures Downcase(s)[i] == Lower(s[i]) {
        assert Downcase(s)[i] == Downcase(s[1..])[i - 1];
      }
    }
  }

  /** `lstrip` takes away whitespace from the front and stops at the first other character. */
  lemma {:induction false} TrimStartSuffix(s: string)
    ensures |TrimStart(s)| <= |s| && TrimStart(s) == s[|s| - |TrimStart(s)|..]
    ensures TrimStart(s) == [] || !IsSpace(TrimStart(s)[0])
    ensures forall i :: 0 <= i < |s| - |TrimStart(s)| ==> IsSpace(s[i])
  {
    if s != [] && IsSpace(s[0]) {
      TrimStartSuffix(s[1..]);
      forall i | 1 <= i < |s| - |TrimStart(s)| ensures IsSpace(s[i]) {
        assert s[i] == s[1..][i - 1];
      }
    }
  }

  /** `rstrip` takes away whitespace from the back and stops at the last other character. */
  lemma {:induction false} TrimEndPrefix(s: string)
    ensures |TrimEnd(s)| <= |s| && TrimEnd(s) == s[..|TrimEnd(s)|]
    ensures TrimEnd(s) == [] || !IsSpace(TrimEnd(s)[|TrimEnd(s)| - 1])
    ensures forall i :: |TrimEnd(s)| <= i < |s| ==> IsSpace(s[i])
  {
    if s != [] && IsSpace(s[|s| - 1]) {
      var t := s[..|s| - 1];
      TrimEndPrefix(t);
      assert TrimEnd(s) == TrimEnd(t);
      assert t[..|TrimEnd(t)|] == s[..|TrimEnd(t)|];
      forall i | |TrimEnd(s)| <= i < |s| - 1 ensures IsSpace(s[i]) {
        assert s[i] == t[i];
      }
    }
  }

  /** `strip`. */
  function Strip(s: string): (r: string)
    ensures |r| <= |s| && Stripped(r)
  {
    TrimStartSuffix(s);
    TrimEndPrefix(TrimStart(s));
    TrimEnd(TrimStart(s))
  }

  /** `normalize_name`: `name.downcase.strip`. */
  function Normalize(name: string): (r: string)
    ensures |r| <= |name| && Stripped(r)
  {
    Strip(Downcase(name))
  }

  /**
   * `strip` cuts a contiguous slice out of `s`, taking away whitespace and
   * nothing else, and leaves no whitespace at either end.
   */
  lemma StripSlice(s: string) returns (i: nat, j: nat)
    ensures i <= j <= |s| && Strip(s) == s[i..j]
    ensures forall k :: 0 <= k < i ==> IsSpace(s[k])
    ensures forall k :: j <= k < |s| ==> IsSpace(s[k])
    ensures Stripped(Strip(s))
  {
    var t := TrimStart(s);
    TrimStartSuffix(s);
    TrimEndPrefix(t);
    i := |s| - |t|;
    j := i + |TrimEnd(t)|;
    forall k | j <= k < |s| ensures IsSpace(s[k]) {
      assert s[k] == t[k - i];
    }
  }

  /** A string already without outer whitespace is left alone by `strip`. */
  lemma StripStripped(s: string)
    requires Stripped(s)
    ensures Strip(s) == s
  {
  }

  /**
   * A normalised name has no upper-case letter and no outer whitespace, and
   * normalising it again changes nothing.
   */
  lemma {:induction false} NormalizeIdempotent(name: string)
    ensures Stripped(Normalize(name))
    ensures forall k :: 0 <= k < |Normalize(name)| ==> !IsUpper(Normalize(name)[k])
    ensures Normalize(Normalize(name)) == Normalize(name)
  {
    var d := Downcase(name);
    var n := Normalize(name);
    DowncaseAt(name);
    var i, j := StripSlice(d);
    assert forall k :: 0 <= k < |n| ==> n[k] == d[i + k];
    DowncaseAt(n);
    assert Downcase(n) == n;
    StripStripped(n);
  }

  /** The characters of `name` before its first separator. */
  function LeadingField(name: string): string
  {
    if name == [] || IsSeparator(name[0]) then [] else [name[0]] + LeadingField(name[1..])
  }

  /**
   * The leading field is the longest prefix of `name` without a separator:
   * a prefix, separator-free, and followed by a separator or by nothing.
   */
  lemma {:induction false} LeadingFieldIsLongestPrefix(name: string)
    ensures |LeadingField(name)| <= |name| && LeadingField(name) == name[..|LeadingField(name)|]
    ensures forall i :: 0 <= i < |LeadingField(name)| ==> !IsSeparator(name[i])
    ensures |LeadingField(name)| < |name| ==> IsSeparator(name[|LeadingField(name)|])
  {
    if name != [] && !IsSeparator(name[0]) {
      LeadingFieldIsLongestPrefix(name[1..]);
      forall i | 1 <= i < |LeadingField(name)| ensures !IsSeparator(name[i]) {
        assert name[i] == name[1..][i - 1];
      }
    }
  }

  /** Every character of `s` is a separator (true of the empty string). */
  predicate OnlySeparators(s: string)
  {
    forall i :: 0 <= i < |s| ==> IsSeparator(s[i])
  }

  /**
   * `first_name`: `name.split(/[ _-]/).first`. Ruby's `split` drops the
   * trailing empty fields, so a name made of separators only (or empty) splits
   * into no fields and `first` is nil; otherwise the first field, which is
   * empty when the name starts with a separator.
   */
  function FirstName(name: string): (r: Option<string>)
    ensures r.None? <==> OnlySeparators(name)
    ensures r.Some? ==> |r.value| <= |name| && r.value == name[..|r.value|]
  {
    LeadingFieldIsLongestPrefix(name);
    if OnlySeparators(name) then None else Some(LeadingField(name))
  }

  /**
   * The correctness check of `update_score`: the normalised guess equals the
   * normalised first name, or the guess AS TYPED equals the normalised full
   * name. `first_name` must not be nil, or `normalize_name` raises.
   */
  predicate GotIt(guess: string, fullName: string)
    requires FirstName(fullName).Some?
    ensures GotIt(guess, fullName) ==>
              Normalize(guess) == Normalize(FirstName(fullName).value) || Normalize(guess) == Normalize(fullName)
  {
    NormalizeIdempotent(fullName);
    Normalize(guess) == Normalize(FirstName(fullName).value) || guess == Normalize(fullName)
  }

  /**
   * The full-name alternative only accepts a guess that is already in
   * normal form: a guess is correct exactly when its normal form is the
   * normalised first name, or it is its own normal form and that is the
   * normalised full name.
   */
  lemma GotItCharacterized(guess: string, fullName: string)
    requires FirstName(fullName).Some?
    ensures GotIt(guess, fullName) <==>
              Normalize(guess) == Normalize(FirstName(fullName).value)
              || (guess == Normalize(guess) && Normalize(guess) == Normalize(fullName))
  {
    NormalizeIdempotent(fullName);
  }

  /**
   * Typing a full name exactly as it is stored counts only when it is already
   * in normal form, or when it normalises to its own first name (a name of a
   * single field).
   */
  lemma TypedFullName(fullName: string)
    requires FirstName(fullName).Some?
    ensures GotIt(fullName, fullName) <==>
              fullName == Normalize(fullName) || Normalize(fullName) == Normalize(FirstName(fullName).value)
  {
    GotItCharacterized(fullName, fullName);
  }

  /**
   * The normal form of `normalize_name`: a string is left unchanged exactly
   * when it has no upper-case letter and no whitespace at either end.
   */
  lemma NormalFormCharacterized(s: string)
    ensures Normalize(s) == s <==> Stripped(s) && forall k :: 0 <= k < |s| ==> !IsUpper(s[k])
  {
    NormalizeIdempotent(s);
    if Stripped(s) && forall k :: 0 <= k < |s| ==> !IsUpper(s[k]) {
      DowncaseAt(s);
      assert Downcase(s) == s;
      StripStripped(s);
    }
  }

  /**
   * When position `k` holds the first separator of a name that is not made
   * of separators only, `first_name` is the `k` characters before it.
   */
  lemma FirstNameEndsAt(name: string, k: nat)
    requires k < |name| && IsSeparator(name[k])
    requires forall i :: 0 <= i < k ==> !IsSeparator(name[i])
    requires !OnlySeparators(name)
    ensures FirstName(name) == Some(name[..k])
  {
    LeadingFieldIsLongestPrefix(name);
    var n := |LeadingField(name)|;
    assert n <= k by {
      assert IsSeparator(name[k]);
    }
    assert n >= k by {
      assert n < |name|;
    }
  }

  /**
   * `first_name` on the file-name style and display style of names: the
   * text before the first space, underscore or hyphen.
   */
  lemma FirstNameExamples(full: string, file: string, hyphen: string)
    requires full == "Alice Smith" && file == "alice_jones" && hyphen == "mary-jo_lee"
    ensures FirstName(full) == Some("Alice")
    ensures FirstName(file) == Some("alice")
    ensures FirstName(hyphen) == Some("mary")
  {
    assert !IsSeparator(full[0]);
    FirstNameEndsAt(full, 5);
    assert full[..5] == "Alice";
    assert !IsSeparator(file[0]);
    FirstNameEndsAt(file, 5);
    assert file[..5] == "alice";
    assert !IsSeparator(hyphen[0]);
    FirstNameEndsAt(hyphen, 4);
    assert hyphen[..4] == "mary";
  }

  /**
   * `first_name` is an empty field when the name starts with a separator,
   * and nil when the name has no field at all.
   */
  lemma FirstNameEdgeExamples(lead: string, seps: string)
    requires lead == "-bob" && seps == "_ -"
    ensures FirstName(lead) == Some("")
    ensures FirstName(seps) == None && FirstName("") == None
  {
    assert !IsSeparator(lead[1]);
    FirstNameEndsAt(lead, 0);
  }

  /** `normalize_name` lower-cases the full name "Alice Smith" and its first name "Alice". */
  lemma NormalizeCapitalsExamples(fullName: string, first: string)
    requires fullName == "Alice Smith" && first == "Alice"
    ensures Normalize(fullName) == "alice smith"
    ensures Normalize(first) == "alice"
  {
    DowncaseAt(fullName);
    assert Downcase(fullName) == "alice smith";
    StripStripped(Downcase(fullName));
    DowncaseAt(first);
    assert Downcase(first) == "alice";
    StripStripped(Downcase(first));
  }

  /** `normalize_name` removes the padding and capitals of "  ALICE ". */
  lemma NormalizePaddedExample(guess: string)
    requires guess == "  ALICE "
    ensures Normalize(guess) == "alice"
  {
    DowncaseAt(guess);
    var d := Downcase(guess);
    assert d == "  alice ";
    assert TrimStart(d) == TrimStart(d[1..]) == TrimStart(d[2..]) == d[2..];
    var t := d[2..];
    assert TrimEnd(t) == TrimEnd(t[..|t| - 1]) == t[..|t| - 1];
    assert t[..|t| - 1] == "alice";
  }

  /**
   * The accepted guesses for the full name "Alice Smith": the first name in
   * any case and padding, and the lower-case full name.
   */
  lemma GotItAcceptsExamples(fullName: string, first: string, padded: string, lower: string)
    requires fullName == "Alice Smith" && first == "alice" && padded == "  ALICE " && lower == "alice smith"
    ensures FirstName(fullName) == Some("Alice")
    ensures GotIt(first, fullName)
    ensures GotIt(padded, fullName)
    ensures GotIt(lower, fullName)
  {
    assert !IsSeparator(fullName[0]);
    FirstNameEndsAt(fullName, 5);
    assert fullName[..5] == "Alice";
    NormalizeCapitalsExamples(fullName, FirstName(fullName).value);
    NormalizePaddedExample(padded);
    NormalFormCharacterized(first);
    NormalFormCharacterized(lower);
  }

  /**
   * The rejected guesses for the full name "Alice Smith": the full name typed
   * with its capitals (it differs from its normal form) and another name.
   */
  lemma GotItRejectsExamples(fullName: string, other: string)
    requires fullName == "Alice Smith" && other == "bob"
    ensures FirstName(fullName) == Some("Alice")
    ensures !GotIt(fullName, fullName)
    ensures !GotIt(other, fullName)
  {
    assert !IsSeparator(fullName[0]);
    FirstNameEndsAt(fullName, 5);
    assert fullName[..5] == "Alice";
    NormalizeCapitalsExamples(fullName, FirstName(fullName).value);
    NormalFormCharacterized(other);
    assert fullName[0] != Normalize(fullName)[0];
  }
}
