/** `translateLocation`: a parsed location (labels joined by "; ", each
    label `city` or `F1/F2: city`) rendered in English, group by group and
    token by token, through a dictionary of countries and one of cities. */
module Translate {
  import opened Wrappers
  import opened Text

  /** The `geoDict` / `geoTranslateDict` tables: Russian names mapped to
      English ones, countries apart from cities. */
  datatype Dictionary = Dictionary(countries: map<string, string>, cities: map<string, string>)

  /** Characters that cut a group into tokens (`/[:\/]/`). */
  const TokenSeparators: set<char> := {':', '/'}

  /** The character that cuts a location into groups. */
  const GroupSeparators: set<char> := {';'}

  /** `table[key]` as a JavaScript condition sees it: a missing entry and an
      empty string are both falsy, so neither is used. */
  function Entry(table: map<string, string>, key: string): (r: Option<string>)
    ensures r.Some? <==> key in table && table[key] != []
    ensures r.Some? ==> r.value == table[key]
  {
    if key in table && table[key] != [] then Some(table[key]) else None
  }

  /** One token: trimmed, then its country translation, else its city
      translation, else the trimmed token itself. */
  function TranslateToken(dict: Dictionary, raw: string): (r: string)
    ensures r == Trim(raw) || r in dict.countries.Values || r in dict.cities.Values
  {
    var t := Trim(raw);
    match Entry(dict.countries, t)
    case Some(en) => en
    case None =>
      match Entry(dict.cities, t)
      case Some(en) => en
      case None => t
  }

  /** One `;`-separated group: its tokens translated and joined by ", ". */
  function TranslateGroup(dict: Dictionary, part: string): string {
    Join(Words(dict, SplitOn(part, TokenSeparators)), ", ")
  }

  /** The tokens of a group, each translated. */
  function Words(dict: Dictionary, tokens: seq<string>): (words: seq<string>)
    ensures |words| == |tokens|
  {
    seq(|tokens|, k requires 0 <= k < |tokens| => TranslateToken(dict, tokens[k]))
  }

  /** The translated groups of a location, one per `;`-separated part. */
  function Groups(dict: Dictionary, ru: string): (groups: seq<string>)
    ensures |groups| == Count(ru, GroupSeparators) + 1
  {
    var parts := SplitOn(ru, GroupSeparators);
    seq(|parts|, k requires 0 <= k < |parts| => TranslateGroup(dict, parts[k]))
  }

  /** `translateLocation`: the translated groups joined by " | ". */
  function TranslateLocation(dict: Dictionary, ru: string): string {
    Join(Groups(dict, ru), " | ")
  }

  // ---------------------------------------------------------------- tokens

  /** The country table is consulted first: a token it translates gets the
      country name whatever the city table says. */
  lemma CountriesFirst(dict: Dictionary, raw: string, cities: map<string, string>)
    requires Trim(raw) in dict.countries && dict.countries[Trim(raw)] != []
    ensures TranslateToken(dict, raw) == dict.countries[Trim(raw)]
    ensures TranslateToken(dict, raw) == TranslateToken(Dictionary(dict.countries, cities), raw)
  {
  }

  /** A token the country table does not translate gets its city name. */
  lemma CitiesSecond(dict: Dictionary, raw: string)
    requires Entry(dict.countries, Trim(raw)).None?
    requires Trim(raw) in dict.cities && dict.cities[Trim(raw)] != []
    ensures TranslateToken(dict, raw) == dict.cities[Trim(raw)]
  {
  }

  /** A token neither table translates comes out trimmed and otherwise
      unchanged; an empty translation counts as none. */
  lemma UnknownPassesThrough(dict: Dictionary, raw: string)
    requires Trim(raw) !in dict.countries || dict.countries[Trim(raw)] == []
    requires Trim(raw) !in dict.cities || dict.cities[Trim(raw)] == []
    ensures TranslateToken(dict, raw) == Trim(raw)
  {
  }

  /** A leading space changes nothing. */
  lemma TokenLeadingSpace(dict: Dictionary, raw: string)
    ensures TranslateToken(dict, [' '] + raw) == TranslateToken(dict, raw)
  {
    TrimLeadingSpace(' ', raw);
  }

  // ---------------------------------------------------------------- groups

  /** No translated group holds a '|' when the location and the
      dictionary's names hold none. */
  predicate NamesAvoid(dict: Dictionary, seps: set<char>) {
    && (forall key :: key in dict.countries ==> Avoids(dict.countries[key], seps))
    && (forall key :: key in dict.cities ==> Avoids(dict.cities[key], seps))
  }

  lemma TokenAvoids(dict: Dictionary, raw: string, seps: set<char>)
    requires Avoids(raw, seps) && NamesAvoid(dict, seps)
    ensures Avoids(TranslateToken(dict, raw), seps)
  {
    var t := Trim(raw);
    if Entry(dict.countries, t).None? && Entry(dict.cities, t).None? {
      forall k | 0 <= k < |t| ensures t[k] !in seps {
        TrimKeeps(raw, t[k]);
      }
    }
  }

  lemma GroupAvoids(dict: Dictionary, part: string, seps: set<char>)
    requires Avoids(part, seps) && NamesAvoid(dict, seps) && ',' !in seps && ' ' !in seps
    ensures Avoids(TranslateGroup(dict, part), seps)
  {
    var tokens := SplitOn(part, TokenSeparators);
    var words := Words(dict, tokens);
    forall k | 0 <= k < |words| ensures Avoids(words[k], seps) {
      forall i | 0 <= i < |tokens[k]| ensures tokens[k][i] !in seps {
        SplitOnKeeps(part, TokenSeparators, k, tokens[k][i]);
      }
      TokenAvoids(dict, tokens[k], seps);
    }
    JoinAvoids(words, ", ", seps);
  }

  /** `translateLocation` gives one " | "-joined group per `;`-separated
      part: when neither the location nor any dictionary name holds a '|',
      the output holds exactly one '|' per ';' of the input. */
  lemma GroupCount(dict: Dictionary, ru: string)
    requires Avoids(ru, {'|'}) && NamesAvoid(dict, {'|'})
    ensures Count(TranslateLocation(dict, ru), {'|'}) == Count(ru, GroupSeparators)
  {
    var groups := Groups(dict, ru);
    GroupsAvoid(dict, ru, {'|'});
    JoinCount(groups, " | ", {'|'});
    SeparatorCount();
  }

  lemma GroupsAvoid(dict: Dictionary, ru: string, seps: set<char>)
    requires Avoids(ru, seps) && NamesAvoid(dict, seps) && ',' !in seps && ' ' !in seps
    ensures forall k :: 0 <= k < |Groups(dict, ru)| ==> Avoids(Groups(dict, ru)[k], seps)
  {
    var parts := SplitOn(ru, GroupSeparators);
    forall k | 0 <= k < |parts| ensures Avoids(Groups(dict, ru)[k], seps) {
      forall i | 0 <= i < |parts[k]| ensures parts[k][i] !in seps {
        SplitOnKeeps(ru, GroupSeparators, k, parts[k][i]);
      }
      GroupAvoids(dict, parts[k], seps);
    }
  }

  lemma SeparatorCount()
    ensures Count(" | ", {'|'}) == 1
  {
    assert " | "[1..] == "| ";
    assert "| "[1..] == " ";
    assert " "[1..] == [];
  }

  /** A leading space changes no group. */
  lemma GroupLeadingSpace(dict: Dictionary, part: string)
    ensures TranslateGroup(dict, [' '] + part) == TranslateGroup(dict, part)
  {
    var tokens := SplitOn(part, TokenSeparators);
    var spaced := SplitOn([' '] + part, TokenSeparators);
    SplitOnCons(' ', part, TokenSeparators);
    forall k | 0 <= k < |tokens| ensures Words(dict, spaced)[k] == Words(dict, tokens)[k] {
      if k == 0 {
        TokenLeadingSpace(dict, tokens[0]);
      } else {
        assert spaced[k] == tokens[k];
      }
    }
    SameElements(Words(dict, spaced), Words(dict, tokens));
  }

  // ---------------------------------------------------------------- labels

  /** A label `q1/…/qn: city` translates token by token: each qualifier and
      then the city, joined by ", ", when none of them holds ':' or '/'. */
  lemma TranslateLabel(dict: Dictionary, qs: seq<string>, city: string)
    requires |qs| >= 1 && Avoids(city, TokenSeparators)
    requires forall k :: 0 <= k < |qs| ==> Avoids(qs[k], TokenSeparators)
    ensures TranslateGroup(dict, Join(qs, "/") + ": " + city) == Join(Words(dict, qs + [city]), ", ")
  {
    var tokens := SplitOn(Join(qs, "/") + ": " + city, TokenSeparators);
    assert tokens == qs + [[' '] + city] by {
      LabelTokens(qs, city);
    }
    TokenLeadingSpace(dict, city);
    WordsLast(dict, qs, [' '] + city, city);
  }

  /** Two last tokens that translate alike give the same words. */
  lemma WordsLast(dict: Dictionary, qs: seq<string>, a: string, b: string)
    requires TranslateToken(dict, a) == TranslateToken(dict, b)
    ensures Words(dict, qs + [a]) == Words(dict, qs + [b])
  {
    var x, y := Words(dict, qs + [a]), Words(dict, qs + [b]);
    forall k | 0 <= k < |x| ensures x[k] == y[k] {
      if k < |qs| {
        assert (qs + [a])[k] == qs[k] == (qs + [b])[k];
      }
    }
    SameElements(x, y);
  }

  /** The tokens of a label `q1/…/qn: city`. */
  lemma LabelTokens(qs: seq<string>, city: string)
    requires |qs| >= 1 && Avoids(city, TokenSeparators)
    requires forall k :: 0 <= k < |qs| ==> Avoids(qs[k], TokenSeparators)
    ensures SplitOn(Join(qs, "/") + ": " + city, TokenSeparators) == qs + [[' '] + city]
  {
    var spaced := [' '] + city;
    assert Join(qs, "/") + ": " + city == Join(qs, ['/']) + [':'] + spaced;
    SplitOnJoinThen(qs, '/', ':', spaced, TokenSeparators);
    assert Avoids(spaced, TokenSeparators);
    SplitOnAvoiding(spaced, TokenSeparators);
  }

  /** A label that is just a city translates as that one token. */
  lemma TranslateCity(dict: Dictionary, city: string)
    requires Avoids(city, TokenSeparators)
    ensures TranslateGroup(dict, city) == TranslateToken(dict, city)
  {
    SplitOnAvoiding(city, TokenSeparators);
  }

  /** Splitting labels joined by "; " on ';' gives the first label and then
      each further label behind its space. */
  lemma {:induction false} SplitLabels(labels: seq<string>)
    requires |labels| >= 1
    requires forall k :: 0 <= k < |labels| ==> Avoids(labels[k], GroupSeparators)
    ensures var parts := SplitOn(Join(labels, "; "), GroupSeparators);
      && |parts| == |labels| && parts[0] == labels[0]
      && forall k :: 1 <= k < |labels| ==> parts[k] == [' '] + labels[k]
    decreases |labels|
  {
    if |labels| == 1 {
      SplitOnAvoiding(labels[0], GroupSeparators);
    } else {
      var rest := Join(labels[1..], "; ");
      SplitLabels(labels[1..]);
      assert Join(labels, "; ") == labels[0] + [';'] + ([' '] + rest);
      SplitOnFirst(labels[0], ';', [' '] + rest, GroupSeparators);
      SplitOnCons(' ', rest, GroupSeparators);
      var parts := SplitOn(Join(labels, "; "), GroupSeparators);
      forall k | 2 <= k < |labels| ensures parts[k] == [' '] + labels[k] {
        assert parts[k] == SplitOn(rest, GroupSeparators)[k - 1];
      }
    }
  }

  /** The location of a record, labels joined by "; ", translates label by
      label: one group per label, in order, joined by " | ". */
  lemma TranslateLabels(dict: Dictionary, labels: seq<string>)
    requires |labels| >= 1
    requires forall k :: 0 <= k < |labels| ==> Avoids(labels[k], GroupSeparators)
    ensures TranslateLocation(dict, Join(labels, "; ")) ==
      Join(seq(|labels|, k requires 0 <= k < |labels| => TranslateGroup(dict, labels[k])), " | ")
  {
    SplitLabels(labels);
    var parts := SplitOn(Join(labels, "; "), GroupSeparators);
    var groups := Groups(dict, Join(labels, "; "));
    var expected := seq(|labels|, k requires 0 <= k < |labels| => TranslateGroup(dict, labels[k]));
    forall k | 0 <= k < |labels| ensures groups[k] == expected[k] {
      assert groups[k] == TranslateGroup(dict, parts[k]);
      if k > 0 {
        GroupLeadingSpace(dict, labels[k]);
      }
    }
    SameElements(groups, expected);
  }
}
