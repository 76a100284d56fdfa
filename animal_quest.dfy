/**
 * The Animal Quest episode list (apps/website/src/pages/animal-quest/index.tsx):
 * how the episodes are numbered, the three ways the page can arrange them
 * (`all`, `classification`, `broadcast`), and how the names of an episode's
 * featured ambassadors are joined into one line.
 *
 * What the page takes from elsewhere is a parameter here: the ambassador
 * records, the classification comparator, the classification label and slug
 * helpers, and the UTC year of a timestamp.
 */
module AnimalQuest {
  import opened Wrappers
  import opened OrderedMaps
  import opened ArraySort
  import opened Grouping
  import opened Decimal

  /** An entry of the Animal Quest list, with the fields the page reads. */
  datatype Quest = Quest(edition: string, broadcast: int, featured: seq<string>)

  /** An entry with its episode number. */
  datatype Episode = Episode(quest: Quest, episode: int)

  /** An ambassador record: its display name and its class (`class` in the data). */
  datatype Ambassador = Ambassador(name: string, classKey: string)

  /** An episode with its lead ambassador, as the classification strategy sorts them. */
  type Pairing = (Episode, Ambassador)

  // Episode numbering

  /** `s` back to front. */
  function Reverse<X>(s: seq<X>): (r: seq<X>)
    ensures |r| == |s|
    ensures forall i :: 0 <= i < |s| ==> r[i] == s[|s| - 1 - i]
  {
    if s == [] then [] else Reverse(s[1..]) + [s[0]]
  }

  /** Each entry with number `idx + 1`. */
  function Numbered(quests: seq<Quest>): (r: seq<Episode>)
    ensures |r| == |quests|
    ensures forall i :: 0 <= i < |quests| ==> r[i] == Episode(quests[i], i + 1)
  {
    seq(|quests|, i requires 0 <= i < |quests| => Episode(quests[i], i + 1))
  }

  /**
   * The page's episode list: numbered in list order, then reversed, so the
   * newest entry comes first and the numbers run from the count down to 1.
   */
  function NumberEpisodes(quests: seq<Quest>): (episodes: seq<Episode>)
    ensures |episodes| == |quests|
    ensures forall k :: 0 <= k < |episodes| ==>
      episodes[k] == Episode(quests[|quests| - 1 - k], |quests| - k)
  {
    Reverse(Numbered(quests))
  }

  /** Episode numbers are 1 to the count, strictly decreasing down the list. */
  lemma NumbersDescend(quests: seq<Quest>)
    ensures forall a, b :: 0 <= a < b < |quests| ==>
      NumberEpisodes(quests)[a].episode > NumberEpisodes(quests)[b].episode
    ensures forall k :: 0 <= k < |quests| ==> 1 <= NumberEpisodes(quests)[k].episode <= |quests|
  {
  }

  // The three arrangements

  datatype SortOption = All | ByClassification | ByBroadcast

  /** The label the option shows in the page's dropdown. */
  function Label(option: SortOption): (text: string)
    ensures option.All? <==> text == "All Episodes"
  {
    match option
    case All => "All Episodes"
    case ByClassification => "Ambassador Classification"
    case ByBroadcast => "Broadcast Date"
  }

  /** What a strategy returns: the list itself, or named groups in order. */
  datatype Arrangement = Flat(items: seq<Episode>) | Grouped(groups: Groups<Episode>)

  ghost predicate ValidArrangement(a: Arrangement) {
    a.Grouped? ==> a.groups.Valid()
  }

  /** Every episode an arrangement shows, in the order it shows them. */
  function Shown(a: Arrangement): seq<Episode>
    requires ValidArrangement(a)
  {
    match a
    case Flat(items) => items
    case Grouped(groups) => AllItems(groups)
  }

  function EpisodeOf(p: Pairing): Episode {
    p.0
  }

  function Same(e: Episode): Episode {
    e
  }

  // Classification

  /**
   * `ambassadors[episode.ambassadors.featured[0]]`: the record of the first
   * featured ambassador, or nothing when there is none or the key has no
   * record (the page then fails with a TypeError reading its `class`).
   */
  function Lead(e: Episode, ambassadors: map<string, Ambassador>): (r: Option<Ambassador>)
    ensures r.Some? <==> |e.quest.featured| > 0 && e.quest.featured[0] in ambassadors
    ensures r.Some? ==> r.value == ambassadors[e.quest.featured[0]]
  {
    if |e.quest.featured| > 0 && e.quest.featured[0] in ambassadors
    then Some(ambassadors[e.quest.featured[0]])
    else None
  }

  /** Some episode has no lead ambassador record. */
  ghost predicate MissingLead(episodes: seq<Episode>, ambassadors: map<string, Ambassador>) {
    exists i :: 0 <= i < |episodes| && Lead(episodes[i], ambassadors).None?
  }

  /** Each episode paired with its lead ambassador, or nothing if one is missing. */
  function Pairs(episodes: seq<Episode>, ambassadors: map<string, Ambassador>): (r: Option<seq<Pairing>>)
    ensures r.None? <==> MissingLead(episodes, ambassadors)
    ensures r.Some? ==> |r.value| == |episodes|
    ensures r.Some? ==> forall i :: 0 <= i < |episodes| ==>
      r.value[i] == (episodes[i], Lead(episodes[i], ambassadors).value)
  {
    if episodes == [] then Some([])
    else
      match Lead(episodes[0], ambassadors)
      case None => None
      case Some(lead) =>
        match Pairs(episodes[1..], ambassadors)
        case None =>
          var i :| 0 <= i < |episodes[1..]| && Lead(episodes[1..][i], ambassadors).None?;
          assert Lead(episodes[i + 1], ambassadors).None?;
          None
        case Some(rest) =>
          assert forall i :: 1 <= i < |episodes| ==> episodes[i] == episodes[1..][i - 1];
          Some([(episodes[0], lead)] + rest)
  }

  /**
   * The classification comparator: the classes' order, and for equal classes
   * the higher episode number first (`… || episodeB.episode - episodeA.episode`).
   */
  function ByClassThenNumber(compareClasses: (string, string) -> int, p: Pairing, q: Pairing): (c: int)
    ensures c < 0 <==> compareClasses(p.1.classKey, q.1.classKey) < 0
                       || (compareClasses(p.1.classKey, q.1.classKey) == 0 && p.0.episode > q.0.episode)
    ensures c == 0 <==> compareClasses(p.1.classKey, q.1.classKey) == 0 && p.0.episode == q.0.episode
  {
    var c := compareClasses(p.1.classKey, q.1.classKey);
    if c != 0 then c else q.0.episode - p.0.episode
  }

  function ClassificationOrder(compareClasses: (string, string) -> int): (Pairing, Pairing) -> int {
    (p: Pairing, q: Pairing) => ByClassThenNumber(compareClasses, p, q)
  }

  /** A class comparator ECMAScript would accept gives a classification order it accepts. */
  lemma ClassificationConsistent(compareClasses: (string, string) -> int)
    requires Consistent(compareClasses)
    ensures Consistent(ClassificationOrder(compareClasses))
  {
    var cmp := ClassificationOrder(compareClasses);
    forall p, q, r | NotAfter(cmp, p, q) && NotAfter(cmp, q, r) ensures NotAfter(cmp, p, r) {
      ClassesTransitive(compareClasses, p.1.classKey, q.1.classKey, r.1.classKey);
    }
  }

  /** How a consistent comparator's zero and negative results chain. */
  lemma ClassesTransitive(compareClasses: (string, string) -> int, a: string, b: string, c: string)
    requires Consistent(compareClasses)
    ensures compareClasses(a, b) <= 0 && compareClasses(b, c) <= 0 ==> compareClasses(a, c) <= 0
    ensures compareClasses(a, b) == 0 && compareClasses(b, c) == 0 ==> compareClasses(a, c) == 0
    ensures compareClasses(a, b) < 0 && compareClasses(b, c) <= 0 ==> compareClasses(a, c) < 0
    ensures compareClasses(a, b) <= 0 && compareClasses(b, c) < 0 ==> compareClasses(a, c) < 0
  {
    assert NotAfter(compareClasses, a, b) && NotAfter(compareClasses, b, c) ==> NotAfter(compareClasses, a, c);
    assert NotAfter(compareClasses, c, b) && NotAfter(compareClasses, b, a) ==> NotAfter(compareClasses, c, a);
    assert NotAfter(compareClasses, b, c) && NotAfter(compareClasses, c, a) ==> NotAfter(compareClasses, b, a);
    assert NotAfter(compareClasses, c, a) && NotAfter(compareClasses, a, b) ==> NotAfter(compareClasses, c, b);
  }

  /**
   * After the classification sort, classes never go backwards, and within one
   * class the episode numbers go down.
   */
  lemma ClassificationSorted(pairs: seq<Pairing>, compareClasses: (string, string) -> int)
    requires Consistent(compareClasses)
    ensures var s := StableSort(pairs, ClassificationOrder(compareClasses));
      forall i, j :: 0 <= i < j < |s| ==>
        && compareClasses(s[i].1.classKey, s[j].1.classKey) <= 0
        && (compareClasses(s[i].1.classKey, s[j].1.classKey) == 0 ==> s[i].0.episode >= s[j].0.episode)
  {
    ClassificationConsistent(compareClasses);
    SortSorted(pairs, ClassificationOrder(compareClasses));
  }

  /** The group of a pair: the slug of its ambassador's classification label. */
  function ClassificationKey(classification: string -> string, slug: string -> string): Pairing -> string {
    (p: Pairing) => slug(classification(p.1.classKey))
  }

  /** The heading of a pair's group: its ambassador's classification label. */
  function ClassificationName(classification: string -> string): (name: Pairing -> string)
    ensures forall p: Pairing, q: Pairing :: p.1.classKey == q.1.classKey ==> name(p) == name(q)
  {
    (p: Pairing) => classification(p.1.classKey)
  }

  /**
   * What the `classification` strategy returns when every episode has a lead:
   * the groups of the pairs sorted by class and then by episode number, keyed
   * by classification slug in first-seen order, each named by its
   * classification and holding its episodes in sorted order, and together
   * holding exactly the input episodes.
   */
  ghost predicate ClassificationGroups(episodes: seq<Episode>, ambassadors: map<string, Ambassador>,
                                       compareClasses: (string, string) -> int,
                                       classification: string -> string, slug: string -> string,
                                       g: Groups<Episode>)
    requires !MissingLead(episodes, ambassadors)
  {
    var sorted := StableSort(Pairs(episodes, ambassadors).value, ClassificationOrder(compareClasses));
    var key := ClassificationKey(classification, slug);
    && g.Valid()
    && g.keys == Keys(sorted, key)
    && (forall k :: k in g.entries ==>
          g.entries[k] == Group(GroupName(sorted, key, ClassificationName(classification), k),
                                Select(sorted, key, EpisodeOf, k)))
    && (forall k :: k in g.entries ==> k == slug(g.entries[k].name))
    && multiset(AllItems(g)) == multiset(episodes)
  }

  /**
   * Every classification group's key is the slug of the group's name
   * (`group = convertToSlug(classification)` with `name: classification`).
   */
  lemma ClassificationKeysAreSlugs(g: Groups<Episode>, sorted: seq<Pairing>,
                                   classification: string -> string, slug: string -> string)
    requires g.Valid() && g.keys == Keys(sorted, ClassificationKey(classification, slug))
    requires forall k :: k in g.entries ==>
      g.entries[k].name == GroupName(sorted, ClassificationKey(classification, slug), ClassificationName(classification), k)
    ensures forall k :: k in g.entries ==> k == slug(g.entries[k].name)
  {
    var key, name := ClassificationKey(classification, slug), ClassificationName(classification);
    KeysFirstSeen(sorted, key);
    forall k | k in g.entries ensures k == slug(g.entries[k].name) {
      assert Occurs(sorted, key, k);
      GroupNameWriter(sorted, key, name, k);
      var i :| 0 <= i < |sorted| && key(sorted[i]) == k && GroupName(sorted, key, name, k) == name(sorted[i]);
      assert key(sorted[i]) == slug(name(sorted[i]));
    }
  }

  /**
   * The `classification` strategy: pair each episode with its lead ambassador,
   * sort the pairs by class and then by episode number descending, and group
   * them by the slug of the classification label. It fails when an episode has
   * no lead ambassador record.
   */
  method SortByClassification(episodes: seq<Episode>, ambassadors: map<string, Ambassador>,
                              compareClasses: (string, string) -> int,
                              classification: string -> string, slug: string -> string)
    returns (r: Option<Groups<Episode>>)
    ensures r.None? <==> MissingLead(episodes, ambassadors)
    ensures r.Some? ==> ClassificationGroups(episodes, ambassadors, compareClasses, classification, slug, r.value)
  {
    var pairs := Pairs(episodes, ambassadors);
    if pairs.None? {
      return None;
    }
    var sorted := StableSort(pairs.value, ClassificationOrder(compareClasses));
    var groups := GroupBy(sorted, ClassificationKey(classification, slug), ClassificationName(classification), EpisodeOf);
    ProjectPermutation(sorted, pairs.value, EpisodeOf);
    assert Project(pairs.value, EpisodeOf) == episodes;
    ClassificationKeysAreSlugs(groups, sorted, classification, slug);
    r := Some(groups);
  }

  // Broadcast date

  /** Newest first: `b.broadcast.getTime() - a.broadcast.getTime()`. */
  function NewestFirst(): (cmp: (Episode, Episode) -> int)
    ensures forall a: Episode, b: Episode :: cmp(a, b) < 0 <==> a.quest.broadcast > b.quest.broadcast
    ensures forall a: Episode, b: Episode :: cmp(a, b) == 0 <==> a.quest.broadcast == b.quest.broadcast
  {
    (a: Episode, b: Episode) => b.quest.broadcast - a.quest.broadcast
  }

  lemma NewestFirstConsistent()
    ensures Consistent(NewestFirst())
  {
    var cmp := NewestFirst();
    forall a, b, c | NotAfter(cmp, a, b) && NotAfter(cmp, b, c) ensures NotAfter(cmp, a, c) {
    }
  }

  /** The group of an episode: `getUTCFullYear().toString()` of its broadcast. */
  function YearKey(utcYear: int -> int): (key: Episode -> string)
    ensures forall e1: Episode, e2: Episode ::
      key(e1) == key(e2) <==> utcYear(e1.quest.broadcast) == utcYear(e2.quest.broadcast)
  {
    AllInjective();
    (e: Episode) => IntToString(utcYear(e.quest.broadcast))
  }

  /** The episodes ordered newest first. */
  function ByBroadcastDate(episodes: seq<Episode>): seq<Episode> {
    StableSort(episodes, NewestFirst())
  }

  /** The broadcast order puts later broadcasts first and keeps every episode. */
  lemma BroadcastOrder(episodes: seq<Episode>)
    ensures multiset(ByBroadcastDate(episodes)) == multiset(episodes)
    ensures var s := ByBroadcastDate(episodes);
      forall i, j :: 0 <= i < j < |s| ==> s[i].quest.broadcast >= s[j].quest.broadcast
  {
    NewestFirstConsistent();
    SortSorted(episodes, NewestFirst());
  }

  /** A later timestamp never falls in an earlier year. */
  ghost predicate Monotone(utcYear: int -> int) {
    forall t1, t2 :: t1 <= t2 ==> utcYear(t1) <= utcYear(t2)
  }

  /**
   * When years follow timestamps, the broadcast groups come in strictly
   * decreasing year order.
   */
  lemma {:induction false} YearsDescend(episodes: seq<Episode>, utcYear: int -> int)
    requires Monotone(utcYear)
    ensures YearsDecrease(Keys(ByBroadcastDate(episodes), YearKey(utcYear)))
  {
    var s := ByBroadcastDate(episodes);
    var key := YearKey(utcYear);
    var ks := Keys(s, key);
    BroadcastOrder(episodes);
    KeysFirstSeen(s, key);
    forall a, b | 0 <= a < b < |ks| ensures YearBefore(ks[a], ks[b]) {
      assert SeenBefore(s, key, ks[a], ks[b]);
      var i :| 0 <= i < |s| && key(s[i]) == ks[a] && forall j :: 0 <= j <= i ==> key(s[j]) != ks[b];
      assert Occurs(s, key, ks[b]);
      var j :| 0 <= j < |s| && key(s[j]) == ks[b];
      assert i < j;
      assert ks[a] != ks[b];
      LaterYearFirst(s, utcYear, i, j);
    }
  }

  /** In a newest-first list, an earlier episode of a different year has the later year. */
  lemma LaterYearFirst(s: seq<Episode>, utcYear: int -> int, i: int, j: int)
    requires Monotone(utcYear)
    requires forall a, b :: 0 <= a < b < |s| ==> s[a].quest.broadcast >= s[b].quest.broadcast
    requires 0 <= i < j < |s| && YearKey(utcYear)(s[i]) != YearKey(utcYear)(s[j])
    ensures YearBefore(YearKey(utcYear)(s[i]), YearKey(utcYear)(s[j]))
  {
    var ya, yb := utcYear(s[i].quest.broadcast), utcYear(s[j].quest.broadcast);
    assert ya >= yb;
    assert IntToString(ya) == YearKey(utcYear)(s[i]) && IntToString(yb) == YearKey(utcYear)(s[j]);
    assert ya > yb;
  }

  /** Each key is the string of a year, and the years decrease along the keys. */
  ghost predicate YearsDecrease(ks: seq<string>) {
    forall a, b :: 0 <= a < b < |ks| ==> YearBefore(ks[a], ks[b])
  }

  /** `k1` and `k2` are the strings of two years, the first the later one. */
  ghost predicate YearBefore(k1: string, k2: string) {
    exists y1, y2 :: k1 == IntToString(y1) && k2 == IntToString(y2) && y1 > y2
  }

  /** Every episode in a year group was broadcast in that year. */
  lemma YearGroupsHomogeneous(episodes: seq<Episode>, utcYear: int -> int, y: int, e: Episode)
    requires e in Select(ByBroadcastDate(episodes), YearKey(utcYear), Same, IntToString(y))
    ensures utcYear(e.quest.broadcast) == y
  {
    SelectHasKey(ByBroadcastDate(episodes), YearKey(utcYear), IntToString(y), e);
    Injective(utcYear(e.quest.broadcast), y);
  }

  /** An element selected under a key has that key. */
  lemma {:induction false} SelectHasKey(s: seq<Episode>, key: Episode -> string, k: string, e: Episode)
    requires e in Select(s, key, Same, k)
    ensures key(e) == k
  {
    var p := s[..|s| - 1];
    if e in Select(p, key, Same, k) {
      SelectHasKey(p, key, k, e);
    }
  }

  /**
   * What the `broadcast` strategy returns: the groups of the newest-first
   * list, keyed by year string in first-seen order, each named by its own key
   * and holding its episodes in that order, and together holding exactly the
   * input episodes.
   */
  ghost predicate BroadcastGroups(episodes: seq<Episode>, utcYear: int -> int, g: Groups<Episode>) {
    && g.Valid()
    && g.keys == Keys(ByBroadcastDate(episodes), YearKey(utcYear))
    && (forall k :: k in g.entries ==>
          g.entries[k] == Group(k, Select(ByBroadcastDate(episodes), YearKey(utcYear), Same, k)))
    && multiset(AllItems(g)) == multiset(episodes)
  }

  /**
   * The `broadcast` strategy: order newest first and group by the year
   * string, which is both each group's key and its heading.
   */
  method SortByBroadcast(episodes: seq<Episode>, utcYear: int -> int) returns (groups: Groups<Episode>)
    ensures BroadcastGroups(episodes, utcYear, groups)
  {
    var sorted := StableSort(episodes, NewestFirst());
    groups := GroupBy(sorted, YearKey(utcYear), YearKey(utcYear), Same);
    SameItems(sorted, episodes);
    GroupNamedByKey(groups, sorted, YearKey(utcYear), Same);
  }

  /** A rearrangement of the episodes lists the same episodes. */
  lemma SameItems(sorted: seq<Episode>, episodes: seq<Episode>)
    requires multiset(sorted) == multiset(episodes)
    ensures multiset(Project(sorted, Same)) == multiset(episodes)
  {
    ProjectPermutation(sorted, episodes, Same);
    assert Project(episodes, Same) == episodes;
  }

  /** When the name is the key, every group is named by its key. */
  lemma GroupNamedByKey<T, U>(m: Groups<U>, s: seq<T>, key: T -> string, item: T -> U)
    requires m.Valid() && m.keys == Keys(s, key)
    requires forall k :: k in m.entries ==>
      m.entries[k] == Group(GroupName(s, key, key, k), Select(s, key, item, k))
    ensures forall k :: k in m.entries ==> m.entries[k] == Group(k, Select(s, key, item, k))
  {
    KeysFirstSeen(s, key);
    forall k | k in m.entries ensures GroupName(s, key, key, k) == k {
      assert Occurs(s, key, k);
      var i :| 0 <= i < |s| && key(s[i]) == k;
      GroupNameOf(s, key, key, i);
    }
  }

  /**
   * The strategy the option names, applied to the episode list. `all` shows the
   * list as it is; every strategy that succeeds shows each episode exactly once.
   */
  method Arrange(option: SortOption, episodes: seq<Episode>, ambassadors: map<string, Ambassador>,
                 compareClasses: (string, string) -> int,
                 classification: string -> string, slug: string -> string, utcYear: int -> int)
    returns (r: Option<Arrangement>)
    ensures option.All? ==> r == Some(Flat(episodes))
    ensures option.ByBroadcast? ==>
      r.Some? && r.value.Grouped? && BroadcastGroups(episodes, utcYear, r.value.groups)
    ensures option.ByClassification? ==> (r.None? <==> MissingLead(episodes, ambassadors))
    ensures option.ByClassification? && r.Some? ==>
      r.value.Grouped? && ClassificationGroups(episodes, ambassadors, compareClasses, classification, slug, r.value.groups)
    ensures r.Some? ==> ValidArrangement(r.value) && multiset(Shown(r.value)) == multiset(episodes)
  {
    match option
    case All =>
      r := Some(Flat(episodes));
    case ByClassification =>
      var groups := SortByClassification(episodes, ambassadors, compareClasses, classification, slug);
      r := if groups.Some? then Some(Grouped(groups.value)) else None;
    case ByBroadcast =>
      var groups := SortByBroadcast(episodes, utcYear);
      r := Some(Grouped(groups));
  }

  // Featured ambassadors

  /**
   * What follows the name at `idx` of `count` names: `", "` before the
   * second-to-last, `","` then `" and "` after the second-to-last of more than
   * two, `" and "` after the first of two, and nothing after the last.
   */
  function Separator(idx: int, count: int): (sep: string)
    ensures idx < count - 2 ==> sep == ", "
    ensures idx == count - 2 && count > 2 ==> sep == ", and "
    ensures idx == count - 2 && count == 2 ==> sep == " and "
    ensures idx == count - 1 ==> sep == ""
  {
    (if idx < count - 2 then ", " else "")
    + (if idx == count - 2 && count > 2 then "," else "")
    + (if idx == count - 2 then " and " else "")
  }

  /** The featured names from `idx` on, each followed by its separator. */
  function FeaturingFrom(names: seq<string>, idx: nat): string
    decreases |names| - idx
  {
    if idx >= |names| then "" else names[idx] + Separator(idx, |names|) + FeaturingFrom(names, idx + 1)
  }

  /** The "Featuring" line: the names as an English list with a serial comma. */
  function Featuring(names: seq<string>): (line: string)
    ensures line == EnglishList(names)
  {
    FeaturingIsEnglishList(names);
    FeaturingFrom(names, 0)
  }

  /** `names` with `sep` between neighbours. */
  function Join(names: seq<string>, sep: string): string {
    if |names| == 0 then ""
    else if |names| == 1 then names[0]
    else names[0] + sep + Join(names[1..], sep)
  }

  /** An English list with a serial comma: "A", "A and B", "A, B, and C". */
  function EnglishList(names: seq<string>): string {
    if |names| <= 1 then Join(names, "")
    else if |names| == 2 then names[0] + " and " + names[1]
    else Join(names[..|names| - 1], ", ") + ", and " + names[|names| - 1]
  }

  /** The separators produce an English list with a serial comma. */
  lemma FeaturingIsEnglishList(names: seq<string>)
    ensures FeaturingFrom(names, 0) == EnglishList(names)
  {
    var n := |names|;
    if n == 1 {
      assert Separator(0, 1) == "";
    } else if n == 2 {
      assert Separator(0, 2) == " and ";
      assert Separator(1, 2) == "";
      assert FeaturingFrom(names, 1) == names[1];
    } else if n > 2 {
      FeaturingTail(names, 0);
      assert names[0..n - 1] == names[..n - 1];
    }
  }

  lemma {:induction false} FeaturingTail(names: seq<string>, idx: nat)
    requires |names| > 2 && idx <= |names| - 2
    ensures FeaturingFrom(names, idx) == Join(names[idx..|names| - 1], ", ") + ", and " + names[|names| - 1]
    decreases |names| - idx
  {
    var n := |names|;
    assert Separator(n - 1, n) == "";
    assert FeaturingFrom(names, n - 1) == names[n - 1];
    if idx == n - 2 {
      assert Separator(idx, n) == ", and ";
      assert |names[idx..n - 1]| == 1 && names[idx..n - 1][0] == names[idx];
      assert names[idx..n - 1] == [names[idx]];
    } else {
      assert Separator(idx, n) == ", ";
      FeaturingTail(names, idx + 1);
      var tail := names[idx..n - 1];
      assert tail[0] == names[idx];
      assert |tail[1..]| == |names[idx + 1..n - 1]|;
      forall k | 0 <= k < |tail[1..]| ensures tail[1..][k] == names[idx + 1..n - 1][k] {
      }
      assert tail[1..] == names[idx + 1..n - 1];
      var rest := Join(names[idx + 1..n - 1], ", ");
      assert Join(tail, ", ") == names[idx] + ", " + rest;
      assert FeaturingFrom(names, idx) == names[idx] + ", " + (rest + ", and " + names[n - 1]);
    }
  }
}
