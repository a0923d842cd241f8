/**
 * The `-r`/`--resolution` option: a "WxH" string split on 'x' and
 * converted to two integers, as the script does before opening the camera.
 */
module Resolution {
  import opened Wrappers
  import opened Decimal

  const SEPARATOR: char := 'x'

  /** The option's default value. */
  const DEFAULT_RESOLUTION: string := "1280x720"

  datatype Resolution = Resolution(width: int, height: int)

  /**
   * Why a resolution string is refused. `WrongPartCount` is the ValueError of
   * unpacking the split into two names; `NotAnInteger` is the ValueError of `int`.
   */
  datatype ResolutionError = WrongPartCount(parts: nat) | NotAnInteger(part: string)

  /** Number of occurrences of `c` in `s`. */
  function Occurrences(s: string, c: char): nat {
    multiset(s)[c]
  }

  /** Python's `s.split(sep)`: the pieces between separators, empty pieces kept. */
  function Split(s: string, sep: char): (parts: seq<string>)
    ensures |parts| > 0
  {
    if s == [] then [""]
    else
      var rest := Split(s[1..], sep);
      if s[0] == sep then [""] + rest
      else [[s[0]] + rest[0]] + rest[1..]
  }

  /** The split has one more piece than there are separators, and no piece holds one. */
  lemma {:induction false} SplitPieces(s: string, sep: char)
    ensures |Split(s, sep)| == Occurrences(s, sep) + 1
    ensures forall i :: 0 <= i < |Split(s, sep)| ==> sep !in Split(s, sep)[i]
  {
    if s != [] {
      var rest := Split(s[1..], sep);
      SplitPieces(s[1..], sep);
      assert s == [s[0]] + s[1..];
      var parts := Split(s, sep);
      if s[0] != sep {
        forall i | 0 <= i < |parts| ensures sep !in parts[i] {
          if i > 0 {
            assert parts[i] == rest[i];
          }
        }
      }
    }
  }

  /** `sep.join(parts)`, the inverse of `Split`. */
  function Join(parts: seq<string>, sep: char): string
    requires |parts| > 0
  {
    if |parts| == 1 then parts[0] else parts[0] + [sep] + Join(parts[1..], sep)
  }

  /**
   * Lines 39-40: `res_w, res_h = s.split('x')` then `int(res_w), int(res_h)`.
   * The width is converted before the height, so its error is the one raised.
   */
  function ParseResolution(s: string): (r: Result<Resolution, ResolutionError>)
    ensures r.Ok? ==> Occurrences(s, SEPARATOR) == 1
    ensures r.Err? && r.error.WrongPartCount? ==>
      r.error.parts == Occurrences(s, SEPARATOR) + 1 && r.error.parts != 2
  {
    SplitPieces(s, SEPARATOR);
    var parts := Split(s, SEPARATOR);
    if |parts| != 2 then Err(WrongPartCount(|parts|))
    else match (ParseInt(parts[0]), ParseInt(parts[1]))
      case (None, _) => Err(NotAnInteger(parts[0]))
      case (Some(_), None) => Err(NotAnInteger(parts[1]))
      case (Some(w), Some(h)) => Ok(Resolution(w, h))
  }

  /** Line 43: the resolution as the script prints it, `str(w) + "x" + str(h)`. */
  function FormatResolution(r: Resolution): string {
    IntToString(r.width) + [SEPARATOR] + IntToString(r.height)
  }

  /** The printed text holds exactly one separator, whatever the signs of width and height. */
  lemma FormatResolutionOneSeparator(r: Resolution)
    ensures Occurrences(FormatResolution(r), SEPARATOR) == 1
  {
    NoSeparatorInIntText(r.width);
    NoSeparatorInIntText(r.height);
    var a, b := IntToString(r.width), IntToString(r.height);
    assert multiset(a + [SEPARATOR] + b) == multiset(a) + multiset{SEPARATOR} + multiset(b);
  }

  /** Joining the pieces of a split gives back the original string. */
  lemma {:induction false} JoinSplit(s: string, sep: char)
    ensures Join(Split(s, sep), sep) == s
  {
    if s != [] {
      JoinSplit(s[1..], sep);
      JoinSplitStep(s, sep);
    }
  }

  /** One character more in front of a string whose split joins back. */
  lemma JoinSplitStep(s: string, sep: char)
    requires s != []
    requires Join(Split(s[1..], sep), sep) == s[1..]
    ensures Join(Split(s, sep), sep) == s
  {
    var rest := Split(s[1..], sep);
    var parts := Split(s, sep);
    assert s == [s[0]] + s[1..];
    if s[0] == sep {
      assert parts[1..] == rest;
    } else if |rest| > 1 {
      assert parts[1..] == rest[1..];
      assert Join(rest, sep) == rest[0] + [sep] + Join(rest[1..], sep);
    }
  }

  /** Splitting a join of separator-free pieces gives back the pieces. */
  lemma {:induction false} SplitJoin(parts: seq<string>, sep: char)
    requires |parts| > 0
    requires forall i :: 0 <= i < |parts| ==> sep !in parts[i]
    ensures Split(Join(parts, sep), sep) == parts
  {
    if |parts| == 1 {
      SplitFree(parts[0], sep);
    } else {
      SplitJoin(parts[1..], sep);
      SplitPrefix(parts[0], Join(parts[1..], sep), sep);
      assert [parts[0]] + parts[1..] == parts;
    }
  }

  /** A string without the separator splits into itself alone. */
  lemma {:induction false} SplitFree(s: string, sep: char)
    requires sep !in s
    ensures Split(s, sep) == [s]
  {
    if s != [] {
      assert sep !in s[1..] by {
        forall i | 0 <= i < |s[1..]| ensures s[1..][i] != sep {
          assert s[1..][i] == s[i + 1];
        }
      }
      SplitFree(s[1..], sep);
      assert [s[0]] + s[1..] == s;
    }
  }

  /** A separator-free piece followed by the separator opens the split. */
  lemma {:induction false} SplitPrefix(a: string, b: string, sep: char)
    requires sep !in a
    ensures Split(a + [sep] + b, sep) == [a] + Split(b, sep)
  {
    if a == [] {
      assert [] + [sep] + b == [sep] + b;
      assert ([sep] + b)[1..] == b;
    } else {
      var s := a + [sep] + b;
      assert s[1..] == a[1..] + [sep] + b;
      assert sep !in a[1..] by {
        forall i | 0 <= i < |a[1..]| ensures a[1..][i] != sep {
          assert a[1..][i] == a[i + 1];
        }
      }
      SplitPrefix(a[1..], b, sep);
      assert [a[0]] + a[1..] == a;
    }
  }

  /**
   * Parsing what the script prints gives back the same resolution: for every
   * pair of integers w and h, "str(w)xstr(h)" parses to exactly (w, h).
   */
  lemma ParseFormatResolution(r: Resolution)
    ensures ParseResolution(FormatResolution(r)) == Ok(r)
  {
    var a, b := IntToString(r.width), IntToString(r.height);
    NoSeparatorInIntText(r.width);
    NoSeparatorInIntText(r.height);
    SplitJoin([a, b], SEPARATOR);
    assert Join([a, b], SEPARATOR) == a + [SEPARATOR] + b;
    ParseIntToString(r.width);
    ParseIntToString(r.height);
  }

  /** Decimal text of an integer never holds the separator. */
  lemma NoSeparatorInIntText(n: int)
    ensures SEPARATOR !in IntToString(n)
  {
    var s := IntToString(n);
    if n < 0 {
      var t := NatToString(-n);
      forall i | 0 <= i < |s| ensures s[i] != SEPARATOR {
        if i > 0 {
          assert s[i] == t[i - 1];
        }
      }
    }
  }

  /**
   * A string with exactly one separator is accepted exactly when both sides
   * are decimal integers; the width is checked first.
   */
  lemma ParseResolutionOneSeparator(a: string, b: string)
    requires SEPARATOR !in a && SEPARATOR !in b
    ensures ParseResolution(a + [SEPARATOR] + b).Ok? <==> IsDecimal(a) && IsDecimal(b)
    ensures !IsDecimal(a) ==> ParseResolution(a + [SEPARATOR] + b) == Err(NotAnInteger(a))
    ensures IsDecimal(a) && !IsDecimal(b) ==> ParseResolution(a + [SEPARATOR] + b) == Err(NotAnInteger(b))
    ensures ParseResolution(a + [SEPARATOR] + b).Ok? ==>
      Some(ParseResolution(a + [SEPARATOR] + b).value.width) == ParseInt(a) &&
      Some(ParseResolution(a + [SEPARATOR] + b).value.height) == ParseInt(b)
  {
    SplitJoin([a, b], SEPARATOR);
    assert Join([a, b], SEPARATOR) == a + [SEPARATOR] + b;
  }

  /**
   * Unpacking needs exactly two pieces: zero separators or more than one
   * always fail, reporting how many pieces the split produced.
   */
  lemma ParseResolutionSeparatorCount(s: string)
    requires Occurrences(s, SEPARATOR) != 1
    ensures ParseResolution(s) == Err(WrongPartCount(Occurrences(s, SEPARATOR) + 1))
  {
    SplitPieces(s, SEPARATOR);
  }

  /** Every accepted string has exactly one separator, with each side parsing to its component. */
  lemma ParseResolutionAccepted(s: string)
    requires ParseResolution(s).Ok?
    ensures Occurrences(s, SEPARATOR) == 1
    ensures exists a, b ::
              && s == a + [SEPARATOR] + b
              && ParseInt(a) == Some(ParseResolution(s).value.width)
              && ParseInt(b) == Some(ParseResolution(s).value.height)
  {
    var parts := Split(s, SEPARATOR);
    SplitPieces(s, SEPARATOR);
    JoinSplit(s, SEPARATOR);
    assert Join(parts, SEPARATOR) == parts[0] + [SEPARATOR] + parts[1];
  }

  /** The default option value gives 1280 by 720. */
  lemma DefaultResolutionParses()
    ensures ParseResolution(DEFAULT_RESOLUTION) == Ok(Resolution(1280, 720))
  {
    ParseFormatResolution(Resolution(1280, 720));
    DefaultIsFormatted();
  }

  lemma DefaultIsFormatted()
    ensures FormatResolution(Resolution(1280, 720)) == DEFAULT_RESOLUTION
  {
    assert NatToString(1280) == "1280";
    assert NatToString(720) == "720";
    assert IntToString(1280) == "1280";
    assert IntToString(720) == "720";
  }

  /** No positivity check is made: a negative width and a zero height are accepted. */
  lemma NonPositiveAccepted()
    ensures ParseResolution("-640x0") == Ok(Resolution(-640, 0))
  {
    ParseFormatResolution(Resolution(-640, 0));
    NonPositiveIsFormatted();
  }

  lemma NonPositiveIsFormatted()
    ensures FormatResolution(Resolution(-640, 0)) == "-640x0"
  {
    assert NatToString(640) == "640";
    assert NatToString(0) == "0";
  }

  /**
   * A '+' before the width and a leading zero before the height are accepted
   * and do not change the result, as with Python's `int`.
   */
  lemma SignedPaddedParses(w: nat, h: nat)
    ensures ParseResolution(("+" + NatToString(w)) + [SEPARATOR] + ("0" + NatToString(h))) == Ok(Resolution(w, h))
  {
    NoSeparatorInIntText(w);
    NoSeparatorInIntText(h);
    ConsNoSeparator('+', NatToString(w));
    ConsNoSeparator('0', NatToString(h));
    ParseIntSignsAndZeros(NatToString(w));
    ParseIntSignsAndZeros(NatToString(h));
    ParseResolutionOneSeparator("+" + NatToString(w), "0" + NatToString(h));
  }

  lemma ConsNoSeparator(c: char, t: string)
    requires c != SEPARATOR && SEPARATOR !in t
    ensures SEPARATOR !in [c] + t
  {
    var a := [c] + t;
    forall i | 0 <= i < |a| ensures a[i] != SEPARATOR {
      if i > 0 { assert a[i] == t[i - 1]; }
    }
  }

  /** For example "+1280x0720" gives (1280, 720). */
  lemma SignedPaddedExample()
    ensures ParseResolution("+1280x0720") == Ok(Resolution(1280, 720))
  {
    SignedPaddedParses(1280, 720);
    SignedPaddedText();
  }

  lemma SignedPaddedText()
    ensures ("+" + NatToString(1280)) + [SEPARATOR] + ("0" + NatToString(720)) == "+1280x0720"
  {
    assert NatToString(1280) == "1280";
    assert NatToString(720) == "720";
  }
}
