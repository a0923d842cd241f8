/**
 * Names of saved photos, `file_prefix + str(n) + ".png"`, and the start-up
 * scan that picks the first index whose file does not exist yet.
 */
module PhotoFiles {
  import opened Decimal

  /** The fixed first part of every saved photo's name. */
  const FILE_PREFIX: string := "opencv_frame_"

  const EXTENSION: string := ".png"

  /** The name the photo with index `n` is saved under. */
  function FileName(n: nat): string {
    FILE_PREFIX + NatToString(n) + EXTENSION
  }

  /** A photo name is the prefix, then the index text, then the extension. */
  lemma FileNameIndexText(n: nat)
    ensures FileName(n)[..|FILE_PREFIX|] == FILE_PREFIX
    ensures FileName(n)[|FILE_PREFIX|..|FileName(n)| - |EXTENSION|] == NatToString(n)
    ensures FileName(n)[|FileName(n)| - |EXTENSION|..] == EXTENSION
  {
  }

  /**
   * A name of the form prefix + d + extension is the name of photo n exactly
   * when d is canonical decimal text with value n: the scan on line 55 never
   * matches a zero-padded name such as `opencv_frame_00.png`.
   */
  lemma FileNameMatchesCanonical(n: nat, d: string)
    ensures FileName(n) == FILE_PREFIX + d + EXTENSION <==> IsCanonical(d) && DigitsValue(d) == n
  {
    var name := FILE_PREFIX + d + EXTENSION;
    if FileName(n) == name {
      FileNameIndexText(n);
      assert name[|FILE_PREFIX|..|name| - |EXTENSION|] == d;
    }
    if IsCanonical(d) && DigitsValue(d) == n {
      CanonicalIsNatToString(d);
    }
  }

  /** `opencv_frame_00.png` is the name of no photo. */
  lemma PaddedNameNeverScanned(n: nat)
    ensures FileName(n) != FILE_PREFIX + "00" + EXTENSION
  {
    FileNameMatchesCanonical(n, "00");
  }

  /** Different indices give different names. */
  lemma FileNameInjective(i: nat, j: nat)
    requires FileName(i) == FileName(j)
    ensures i == j
  {
    FileNameIndexText(i);
    FileNameIndexText(j);
    NatToStringInjective(i, j);
  }

  /** The names of indices 0 .. k-1, the files the scan finds before stopping at k. */
  ghost function ScannedNames(k: nat): set<string> {
    set i | 0 <= i < k :: FileName(i)
  }

  /** The k scanned names are k distinct files. */
  lemma {:induction false} ScannedNamesCount(k: nat)
    ensures |ScannedNames(k)| == k
  {
    if k > 0 {
      ScannedNamesCount(k - 1);
      ScannedNamesGrow(k - 1);
      NextNotScanned(k - 1);
    }
  }

  lemma ScannedNamesGrow(k: nat)
    ensures ScannedNames(k + 1) == ScannedNames(k) + {FileName(k)}
  {
    forall name | name in ScannedNames(k + 1) ensures name in ScannedNames(k) + {FileName(k)} {
      var i :| 0 <= i < k + 1 && name == FileName(i);
      if i < k {
        assert name in ScannedNames(k);
      }
    }
  }

  lemma NextNotScanned(k: nat)
    ensures FileName(k) !in ScannedNames(k)
  {
    forall i | 0 <= i < k ensures FileName(i) != FileName(k) {
      if FileName(i) == FileName(k) {
        FileNameInjective(i, k);
      }
    }
  }

  /**
   * `n` is where the scan stops: the photo with index n does not exist and every
   * photo with a smaller index does. It is the first gap, not the largest index plus one.
   */
  ghost predicate IsFirstFree(existing: set<string>, n: nat) {
    && FileName(n) !in existing
    && forall i :: 0 <= i < n ==> FileName(i) in existing
  }

  /**
   * Lines 52-57: start at 0 and go up while a photo with that index exists.
   * `existing` is the set of file names present in the working directory.
   */
  method FirstFreeIndex(existing: set<string>) returns (counter: nat)
    ensures IsFirstFree(existing, counter)
    ensures ScannedNames(counter) <= existing && counter <= |existing|
  {
    counter := 0;
    while FileName(counter) in existing
      invariant forall i :: 0 <= i < counter ==> FileName(i) in existing
      invariant ScannedNames(counter) <= existing
      invariant counter <= |existing|
      decreases |existing| - counter
    {
      counter := counter + 1;
      ScannedNamesCount(counter);
      assert ScannedNames(counter) <= existing;
      SubsetCardinality(ScannedNames(counter), existing);
    }
  }

  /** A subset has no more elements than its superset. */
  lemma {:induction false} SubsetCardinality<T>(a: set<T>, b: set<T>)
    requires a <= b
    ensures |a| <= |b|
  {
    if a != {} {
      var x :| x in a;
      SubsetCardinality(a - {x}, b - {x});
    }
  }

  /** At most one index is the first free one. */
  lemma FirstFreeUnique(existing: set<string>, m: nat, n: nat)
    requires IsFirstFree(existing, m) && IsFirstFree(existing, n)
    ensures m == n
  {
  }

  /** The scan stops at the first gap: photos 0, 1 and 3 give 2, where "largest plus one" would give 4. */
  lemma FirstGapExample()
    ensures IsFirstFree({FileName(0), FileName(1), FileName(3)}, 2)
    ensures !IsFirstFree({FileName(0), FileName(1), FileName(3)}, 4)
  {
    if FileName(2) in {FileName(0), FileName(1), FileName(3)} {
      if FileName(2) == FileName(0) { FileNameInjective(2, 0); }
      if FileName(2) == FileName(1) { FileNameInjective(2, 1); }
      if FileName(2) == FileName(3) { FileNameInjective(2, 3); }
    }
  }

  /** An empty directory starts at 0; photos 0 .. k-1 with nothing else start at k. */
  lemma ContiguousFilesExample(k: nat)
    ensures IsFirstFree({}, 0)
    ensures IsFirstFree(ScannedNames(k), k)
  {
    if FileName(k) in ScannedNames(k) {
      var i :| 0 <= i < k && FileName(i) == FileName(k);
      FileNameInjective(i, k);
    }
  }

  /** The names saved by n consecutive saves starting at index c, in order. */
  function SavedNames(c: nat, n: nat): (names: seq<string>)
    ensures |names| == n
    ensures forall j :: 0 <= j < n ==> names[j] == FileName(c + j)
  {
    seq(n, j requires 0 <= j < n => FileName(c + j))
  }

  /** Saves in one session never share a name, so none overwrites another. */
  lemma SavedNamesDistinct(c: nat, n: nat)
    ensures forall j, k :: 0 <= j < k < n ==> SavedNames(c, n)[j] != SavedNames(c, n)[k]
  {
    forall j, k | 0 <= j < k < n ensures SavedNames(c, n)[j] != SavedNames(c, n)[k] {
      if SavedNames(c, n)[j] == SavedNames(c, n)[k] {
        FileNameInjective(c + j, c + k);
      }
    }
  }

  /**
   * Running the script again after a session that saved n photos from the first
   * free index c starts at c + n or later: the new session does not reuse them.
   */
  lemma RescanAfterSession(existing: set<string>, c: nat, n: nat, m: nat)
    requires IsFirstFree(existing, c)
    requires IsFirstFree(existing + set j | 0 <= j < n :: SavedNames(c, n)[j], m)
    ensures m >= c + n
  {
    var after := existing + set j | 0 <= j < n :: SavedNames(c, n)[j];
    forall i | c <= i < c + n ensures FileName(i) in after {
      assert SavedNames(c, n)[i - c] == FileName(i);
    }
  }

  /**
   * The scan only guarantees that no earlier index is reused: with photos 0, 1
   * and 3 present, the second save of the session is written over photo 3.
   */
  lemma LaterPhotoOverwritten()
    ensures IsFirstFree({FileName(0), FileName(1), FileName(3)}, 2)
    ensures SavedNames(2, 2)[1] in {FileName(0), FileName(1), FileName(3)}
  {
    FirstGapExample();
  }

  /** When no photo exists at or after the first free index, a session overwrites nothing. */
  lemma NoOverwriteWithoutLaterPhotos(existing: set<string>, c: nat, n: nat)
    requires IsFirstFree(existing, c)
    requires forall i :: c <= i ==> FileName(i) !in existing
    ensures forall j :: 0 <= j < n ==> SavedNames(c, n)[j] !in existing
  {
  }
}
