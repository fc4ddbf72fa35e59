/**
  The text and badges of one entry in the helm chart list: the title made
  from the display name, and the chips for provider type, provider (or
  first maintainer) and version.
 */
module HelmListItem {
  import opened Wrappers
  import opened Strings
  import opened ChartTypes

  // ---------------------------------------------------------------------
  // Title

  /** `word.charAt(0).toUpperCase() + word.slice(1)`. */
  function CapitalizeWord(word: string): string
  {
    if |word| == 0 then "" else [Upper(word[0])] + word[1..]
  }

  /** `words.map(CapitalizeWord)`. */
  function CapitalizeWords(words: seq<string>): (r: seq<string>)
    ensures |r| == |words|
    ensures forall k :: 0 <= k < |r| ==> r[k] == CapitalizeWord(words[k])
  {
    if |words| == 0 then []
    else [CapitalizeWord(words[0])] + CapitalizeWords(words[1..])
  }

  /**
    What `capitalizeFirstLetter` puts at position `i`: a dash becomes a
    space, the first letter of the value and every letter after a dash is
    upper-cased, and every other character is kept.
   */
  function CapitalizedAt(value: string, i: nat): char
    requires i < |value|
  {
    if value[i] == '-' then ' '
    else if i == 0 || value[i - 1] == '-' then Upper(value[i])
    else value[i]
  }

  /**
    `capitalizeFirstLetter`: without a dash, upper-case the first character;
    with one, split on dashes, capitalize every word and join with spaces.
    The empty value has no first character (`value[0]` is `undefined` and
    the call throws), hence the precondition.
   */
  function CapitalizeFirstLetter(value: string): (r: string)
    requires |value| > 0
    ensures |r| == |value|
    ensures '-' !in r
    ensures forall i :: 0 <= i < |value| ==> r[i] == CapitalizedAt(value, i)
  {
    if '-' !in value then [Upper(value[0])] + value[1..]
    else
      DashedCapitalizedAt(value);
      Join(CapitalizeWords(SplitOn(value, '-')), ' ')
  }

  /** The split-map-join branch, character by character. */
  lemma {:induction false} DashedCapitalizedAt(value: string)
    ensures |Join(CapitalizeWords(SplitOn(value, '-')), ' ')| == |value|
    ensures forall i :: 0 <= i < |value| ==>
              Join(CapitalizeWords(SplitOn(value, '-')), ' ')[i] == CapitalizedAt(value, i)
    decreases |value|
  {
    var r := Join(CapitalizeWords(SplitOn(value, '-')), ' ');
    if '-' in value {
      var n := IndexOf(value, '-');
      var tail := value[n + 1..];
      var t := Join(CapitalizeWords(SplitOn(tail, '-')), ' ');
      UnfoldFirstWord(value, n);
      DashedCapitalizedAt(tail);
      forall i | 0 <= i < |value|
        ensures r[i] == CapitalizedAt(value, i)
      {
        FirstWordThenRestAt(value, n, t, i);
      }
    } else {
      assert r == CapitalizeWord(value);
    }
  }

  /** Splitting at the first dash: the first word capitalized, a space, then the rest. */
  lemma UnfoldFirstWord(value: string, n: nat)
    requires '-' in value && n == IndexOf(value, '-')
    ensures Join(CapitalizeWords(SplitOn(value, '-')), ' ') ==
            CapitalizeWord(value[..n]) + [' '] + Join(CapitalizeWords(SplitOn(value[n + 1..], '-')), ' ')
  {
    var head := value[..n];
    var rest := SplitOn(value[n + 1..], '-');
    assert SplitOn(value, '-') == [head] + rest;
    assert ([head] + rest)[1..] == rest;
    assert CapitalizeWords([head] + rest) == [CapitalizeWord(head)] + CapitalizeWords(rest);
  }

  /** One position of "first word, space, rest" when the rest is already characterised. */
  lemma FirstWordThenRestAt(value: string, n: nat, t: string, i: nat)
    requires n < |value| && value[n] == '-' && '-' !in value[..n]
    requires |t| == |value| - n - 1
    requires forall k :: 0 <= k < |t| ==> t[k] == CapitalizedAt(value[n + 1..], k)
    requires i < |value|
    ensures |CapitalizeWord(value[..n]) + [' '] + t| == |value|
    ensures (CapitalizeWord(value[..n]) + [' '] + t)[i] == CapitalizedAt(value, i)
  {
    var w := CapitalizeWord(value[..n]);
    if i < n {
      assert value[..n][i] == value[i];
      if i > 0 {
        assert value[..n][i - 1] == value[i - 1];
      }
    } else if i > n {
      assert (w + [' '] + t)[i] == t[i - n - 1];
      assert value[n + 1..][i - n - 1] == value[i];
      if i - n - 1 > 0 {
        assert value[n + 1..][i - n - 2] == value[i - 1];
      }
    }
  }

  /** Capitalizing a title a second time changes nothing. */
  lemma CapitalizeFirstLetterIdempotent(value: string)
    requires |value| > 0
    ensures CapitalizeFirstLetter(CapitalizeFirstLetter(value)) == CapitalizeFirstLetter(value)
  {
    var r := CapitalizeFirstLetter(value);
    assert r == [r[0]] + r[1..];
  }

  // ---------------------------------------------------------------------
  // Chips

  datatype ChipColor = Primary | Success | Error

  datatype Chip = Chip(text: string, color: ChipColor)

  /** The provider-type chip, shown when that annotation is truthy. */
  function ProviderTypeChip(v: ChartVersion): Option<Chip>
  {
    if AnnotationTruthy(v, ProviderTypeAnnotation)
    then Some(Chip(v.annotations[ProviderTypeAnnotation], Primary))
    else None
  }

  /** The provider chip when that annotation is truthy, or failing that the first maintainer's chip, or none. */
  function ProviderOrMaintainerChip(v: ChartVersion): Option<Chip>
  {
    if AnnotationTruthy(v, ProviderAnnotation) then Some(Chip(v.annotations[ProviderAnnotation], Success))
    else if |v.maintainers| > 0 then Some(Chip(v.maintainers[0].name, Success))
    else None
  }

  /** The version chip, always shown. */
  function VersionChip(v: ChartVersion): Chip
  {
    Chip(v.version, Error)
  }

  function Shown(c: Option<Chip>): seq<Chip>
  {
    if c.Some? then [c.value] else []
  }

  /** The row of chips under a list entry, left to right. */
  function ChipRow(v: ChartVersion): seq<Chip>
  {
    Shown(ProviderTypeChip(v)) + Shown(ProviderOrMaintainerChip(v)) + [VersionChip(v)]
  }

  /**
    The chip row: a primary chip exactly when the provider-type annotation
    is truthy, then a success chip exactly when the provider annotation is
    truthy (present and not empty) or a maintainer exists (a truthy provider
    winning), and always the version chip last.
   */
  lemma ChipRowShape(v: ChartVersion)
    ensures var row := ChipRow(v);
      && |row| == 1 + (if AnnotationTruthy(v, ProviderTypeAnnotation) then 1 else 0)
                    + (if AnnotationTruthy(v, ProviderAnnotation) || |v.maintainers| > 0 then 1 else 0)
      && row[|row| - 1] == Chip(v.version, Error)
      && (AnnotationTruthy(v, ProviderTypeAnnotation) ==> row[0] == Chip(v.annotations[ProviderTypeAnnotation], Primary))
      && (forall k :: 0 <= k < |row| && row[k].color == Primary ==>
            k == 0 && AnnotationTruthy(v, ProviderTypeAnnotation) && row[k].text == v.annotations[ProviderTypeAnnotation])
      && (forall k :: 0 <= k < |row| && row[k].color == Success ==>
            k == |row| - 2 &&
            row[k].text == if AnnotationTruthy(v, ProviderAnnotation) then v.annotations[ProviderAnnotation]
                            else v.maintainers[0].name)
      && ((exists k :: 0 <= k < |row| && row[k].color == Success) <==>
            AnnotationTruthy(v, ProviderAnnotation) || |v.maintainers| > 0)
  {
    var row := ChipRow(v);
    if AnnotationTruthy(v, ProviderAnnotation) || |v.maintainers| > 0 {
      assert row[|row| - 2].color == Success;
    }
  }
}
