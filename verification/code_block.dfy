/** The code block of the rich-text editor
    (client/src/pages/MainPage/components/Editor/CustomCodeBlockLowlight.jsx):
    reading the language from pasted HTML, the language picker's options,
    its initial selection, and the attribute a choice stores. */
module CodeBlock {
  import opened JsValues
  import opened JsStrings

  /** The picker entry that stands for "no language, detect it". */
  const AUTO := "auto"

  /** `i` is the first index whose class starts with the prefix. */
  predicate FirstPrefixed(classes: seq<string>, prefix: string, i: nat) {
    && i < |classes|
    && StartsWith(classes[i], prefix)
    && forall j :: 0 <= j < i ==> !StartsWith(classes[j], prefix)
  }

  /** No class starts with the prefix. */
  predicate NonePrefixed(classes: seq<string>, prefix: string) {
    forall j :: 0 <= j < |classes| ==> !StartsWith(classes[j], prefix)
  }

  /** There is only one first prefixed class. */
  lemma FirstPrefixedUnique(classes: seq<string>, prefix: string, i: nat, k: nat)
    requires FirstPrefixed(classes, prefix, i) && FirstPrefixed(classes, prefix, k)
    ensures i == k
  {
    if i < k {
      assert false;
    } else if k < i {
      assert false;
    }
  }

  /** A first prefixed class of the tail is the first of the whole list
      when the head lacks the prefix. */
  lemma FirstPrefixedShift(classes: seq<string>, prefix: string, i: nat)
    requires classes != [] && !StartsWith(classes[0], prefix)
    requires FirstPrefixed(classes[1..], prefix, i)
    ensures FirstPrefixed(classes, prefix, i + 1)
  {
    forall j | 0 <= j < i + 1
      ensures !StartsWith(classes[j], prefix)
    {
      if j > 0 { assert classes[j] == classes[1..][j - 1]; }
    }
  }

  /** The class names that start with `prefix`, each with the prefix
      removed, in order: the `filter` and `map` of `parseHTML`. The list is
      empty exactly when no class has the prefix; otherwise its head comes
      from the first prefixed class. */
  function LanguageClasses(classes: seq<string>, prefix: string): (r: seq<string>)
    ensures |r| <= |classes|
    ensures r == [] <==> NonePrefixed(classes, prefix)
    ensures r != [] ==>
      exists i: nat :: FirstPrefixed(classes, prefix, i) && r[0] == classes[i][|prefix|..]
    decreases |classes|
  {
    if classes == [] then []
    else
      var rest := LanguageClasses(classes[1..], prefix);
      if StartsWith(classes[0], prefix) then
        assert FirstPrefixed(classes, prefix, 0);
        [ReplaceFirst(classes[0], prefix)] + rest
      else
        assert rest != [] ==> exists i: nat :: FirstPrefixed(classes, prefix, i) && rest[0] == classes[i][|prefix|..] by {
          if rest != [] {
            var i: nat :| FirstPrefixed(classes[1..], prefix, i) && rest[0] == classes[1..][i][|prefix|..];
            FirstPrefixedShift(classes, prefix, i);
          }
        }
        assert rest == [] ==> NonePrefixed(classes, prefix) by {
          if rest == [] {
            forall j | 0 <= j < |classes| ensures !StartsWith(classes[j], prefix) {
              if j > 0 { assert classes[j] == classes[1..][j - 1]; }
            }
          }
        }
        rest
  }

  /** `parseHTML`: the language named by the first class of the element's
      first child that starts with the prefix; null when there is no such
      class or what follows the prefix is empty. `firstChildClasses` is None
      when the element has no child element. */
  function ParseLanguage(firstChildClasses: Option<seq<string>>, prefix: string): (r: Option<string>)
    ensures firstChildClasses.None? ==> r.None?
    ensures firstChildClasses.Some? && NonePrefixed(firstChildClasses.value, prefix) ==> r.None?
    ensures r.Some? ==>
      && r.value != ""
      && firstChildClasses.Some?
      && exists i: nat :: FirstPrefixed(firstChildClasses.value, prefix, i) && r.value == firstChildClasses.value[i][|prefix|..]
  {
    var languages := LanguageClasses(firstChildClasses.GetOr([]), prefix);
    if languages == [] || languages[0] == "" then None else Some(languages[0])
  }

  /** What `parseHTML` returns, stated through the first prefixed class: the
      text after the prefix when it is non-empty, otherwise null, and null
      when no class has the prefix. Later prefixed classes are never looked at. */
  lemma ParseLanguageFirstMatch(classes: seq<string>, prefix: string, i: nat)
    requires FirstPrefixed(classes, prefix, i)
    ensures ParseLanguage(Some(classes), prefix) ==
      if classes[i] == prefix then None else Some(classes[i][|prefix|..])
  {
    assert !NonePrefixed(classes, prefix) by {
      assert StartsWith(classes[i], prefix);
    }
    var k: nat :| FirstPrefixed(classes, prefix, k) && LanguageClasses(classes, prefix)[0] == classes[k][|prefix|..];
    FirstPrefixedUnique(classes, prefix, i, k);
    assert classes[i] == prefix + classes[i][|prefix|..];
  }

  /** The picker's options: "auto", then the available languages sorted. */
  function LanguageOptions(available: seq<string>): (r: seq<string>)
    ensures |r| == |available| + 1
    ensures r[0] == AUTO
    ensures Sorted(r[1..])
    ensures multiset(r[1..]) == multiset(available)
  {
    var sorted := SortStrings(available);
    assert |sorted| == |multiset(sorted)| == |multiset(available)| == |available|;
    assert ([AUTO] + sorted)[1..] == sorted;
    [AUTO] + sorted
  }

  /** The language attribute a picker choice stores (`handleLanguageChange`).
      The picker allows deselecting the current entry, which hands the
      handler `null` (None); that is stored as null too. */
  function LanguageAttribute(value: Option<string>): (a: Option<string>)
    ensures a == None <==> value.None? || value == Some(AUTO)
    ensures a.Some? ==> a == value
  {
    if value == Some(AUTO) then None else value
  }

  /** The picker's initial selection: the node's language attribute, or
      "auto" when it is null or empty. */
  function InitialSelection(attribute: Option<string>): (v: string)
    ensures v != ""
    ensures v == AUTO <==> attribute.None? || attribute.value == "" || attribute.value == AUTO
    ensures v != AUTO ==> attribute == Some(v)
  {
    if attribute.Some? && attribute.value != "" then attribute.value else AUTO
  }

  /** A choice survives the round trip through the attribute: reopening the
      block shows the language that was picked, and "auto" after a deselect. */
  lemma ChoiceRoundTrip(value: string)
    requires value != ""
    ensures InitialSelection(LanguageAttribute(Some(value))) == value
    ensures InitialSelection(LanguageAttribute(None)) == AUTO
  {
  }

  /** Conversely, a stored attribute comes back unchanged from a choice of
      its initial selection, unless it is "" or literally "auto". */
  lemma AttributeRoundTrip(attribute: Option<string>)
    requires attribute.None? || (attribute.value != "" && attribute.value != AUTO)
    ensures LanguageAttribute(Some(InitialSelection(attribute))) == attribute
  {
  }
}
