/**
 * The fixed enumerations of the catalogue (constants/index.js): ESRB rating
 * codes and genre codes, their display labels and the option lists offered by
 * the drawer's select boxes.
 */
module Constants {
  import opened Helpers

  /** One entry of a select box: what is shown and what is stored. */
  datatype SelectOption = SelectOption(caption: string, value: string)

  const EsrbRatings: seq<string> := ["E", "T", "M", "A", "K_A"]

  const Genres: seq<string> :=
    ["Puzzle", "Golf", "Action_Adventure", "Pinball", "Shooter", "Sports", "Fighting", "Platformer"]

  const GenreMap: map<string, string> := map["Action_Adventure" := "Action & Adventure"]

  const EsrbMap: map<string, string> :=
    map["T" := "Teen", "M" := "Mature", "E" := "Everyone", "A" := "Adult", "K_A" := "Kids to Adults"]

  const EsrbOptions: seq<SelectOption> := [
    SelectOption("Everyone", "E"),
    SelectOption("Teen", "T"),
    SelectOption("Mature", "M"),
    SelectOption("Adult", "A"),
    SelectOption("Kids to Adults", "K_A")
  ]

  const GenreOptions: seq<SelectOption> := [
    SelectOption("Puzzle", "Puzzle"),
    SelectOption("Golf", "Golf"),
    SelectOption("Action & Adventure", "Action_Adventure"),
    SelectOption("Pinball", "Pinball"),
    SelectOption("Shooter", "Shooter"),
    SelectOption("Fighting", "Fighting"),
    SelectOption("Platformer", "Platformer"),
    SelectOption("Sports", "Sports")
  ]

  predicate Distinct<T(==)>(s: seq<T>) {
    forall i, j :: 0 <= i < j < |s| ==> s[i] != s[j]
  }

  /** The stored values of an option list, in order. */
  function Values(options: seq<SelectOption>): seq<string>
  {
    seq(|options|, i requires 0 <= i < |options| => options[i].value)
  }

  /** Five distinct rating codes and eight distinct genre codes. */
  lemma CodeListsDistinct()
    ensures |EsrbRatings| == 5 && Distinct(EsrbRatings)
    ensures |Genres| == 8 && Distinct(Genres)
  {
  }

  /** The rating label map is keyed by exactly the rating codes. */
  lemma EsrbMapKeyedByRatings()
    ensures EsrbMap.Keys == set r | r in EsrbRatings
  {
  }

  /** The rating options offer every rating once, each captioned as in the rating map. */
  lemma EsrbOptionsMatchRatings()
    ensures multiset(Values(EsrbOptions)) == multiset(EsrbRatings)
    ensures forall o :: o in EsrbOptions ==> o.value in EsrbMap && o.caption == EsrbMap[o.value]
  {
    assert Values(EsrbOptions) == EsrbRatings;
    forall o | o in EsrbOptions ensures o.value in EsrbMap && o.caption == EsrbMap[o.value] {
      var k :| 0 <= k < |EsrbOptions| && EsrbOptions[k] == o;
      assert k == 0 || k == 1 || k == 2 || k == 3 || k == 4;
    }
  }

  /**
   * The genre options offer every genre once, but not in the order of the
   * genre list: Sports moves from sixth place to last.
   */
  lemma GenreOptionsPermuteGenres()
    ensures multiset(Values(GenreOptions)) == multiset(Genres)
    ensures Values(GenreOptions) != Genres
  {
    var v := Values(GenreOptions);
    var head, tail := Genres[..5], Genres[5..];
    assert Genres == head + tail;
    assert tail == ["Sports", "Fighting", "Platformer"];
    assert v == head + [tail[1], tail[2], tail[0]];
    assert multiset([tail[1], tail[2], tail[0]]) == multiset(tail);
    assert v[5] != Genres[5] by {
      assert v[5][0] == 'F' && Genres[5][0] == 'S';
    }
  }

  /** `genreFix` spells out the one compound genre code. */
  lemma GenreFixActionAdventure(g: string)
    requires g == "Action_Adventure"
    ensures GenreFix(g) == "Action & Adventure"
  {
    assert g[..6] == "Action" && g[7..] == "Adventure";
    GenreFixReplacesFirst(g, 6);
  }

  /** A genre code without an underscore is its own label. */
  lemma GenreFixPlain(g: string)
    requires '_' !in g
    ensures GenreFix(g) == g
  {
  }

  /** Every genre option is captioned with `genreFix` of its value. */
  lemma GenreOptionLabelsAreGenreFix()
    ensures forall o :: o in GenreOptions ==> o.caption == GenreFix(o.value)
  {
    forall k | 0 <= k < |GenreOptions|
      ensures GenreOptions[k].caption == GenreFix(GenreOptions[k].value)
    {
      var o := GenreOptions[k];
      if k == 2 {
        GenreFixActionAdventure(o.value);
      } else {
        GenreFixPlain(o.value);
      }
    }
  }

  /** The genre label map has one key, labelled as `genreFix` labels it. */
  lemma GenreMapAgreesWithGenreFix()
    ensures GenreMap.Keys == {"Action_Adventure"}
    ensures GenreMap["Action_Adventure"] == GenreFix("Action_Adventure")
  {
    GenreFixActionAdventure("Action_Adventure");
  }

  /** Every other genre code needs no label: `genreFix` leaves it unchanged. */
  lemma UnmappedGenresAreOwnLabel()
    ensures forall k :: 0 <= k < |Genres| && Genres[k] !in GenreMap ==> GenreFix(Genres[k]) == Genres[k]
  {
    forall k | 0 <= k < |Genres| && Genres[k] !in GenreMap ensures GenreFix(Genres[k]) == Genres[k] {
      assert k != 2;
      GenreFixPlain(Genres[k]);
    }
  }
}
