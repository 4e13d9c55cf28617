/** Keyword category inference: `ProductManager.getProductCategory` and the
    fixed `categoryKeywords` table it walks. */
module Categories {
  import opened Text

  /** An ordered keyword table: category names with their keywords, walked in
      the order the object literal lists them. */
  type Table = seq<(string, seq<string>)>

  const CategoryKeywords: Table := [
    ("Jackets", ["jacket", "coat", "bomber", "blazer"]),
    ("Pants", ["pants", "trousers", "cargo", "jeans", "flare"]),
    ("Sweaters", ["sweater", "sweatshirt", "hoodie", "pullover", "crewneck", "turtleneck"]),
    ("Shoes", ["shoes", "boots", "derby"]),
    ("Accessories", ["scarf", "bag", "belt", "necklace", "headgear", "balaclava"])
  ]

  /** The answer when no category matches. */
  const Other: string := "Other"

  /** Every answer the matcher can give, in priority order: the table's names,
      then `Other`. `NamesFollowTable` proves it lists exactly the table's row
      names in the table's order, with `Other` after them. */
  const CategoryNames: seq<string> := ["Jackets", "Pants", "Sweaters", "Shoes", "Accessories", "Other"]

  /** `CategoryNames` is the table's first column followed by `Other`. */
  lemma NamesFollowTable()
    ensures |CategoryNames| == |CategoryKeywords| + 1
    ensures forall i :: 0 <= i < |CategoryKeywords| ==> CategoryNames[i] == CategoryKeywords[i].0
    ensures CategoryNames[|CategoryKeywords|] == Other
  {
  }

  /** One keyword matches a (lower-cased) title when the title contains the
      keyword, the keyword with an `s` appended, or the keyword with its first
      `s` removed. */
  predicate KeywordMatches(title: string, keyword: string) {
    Contains(title, keyword) || Contains(title, keyword + "s") || Contains(title, RemoveFirst(keyword, 's'))
  }

  /** `keywords.some(...)` with the test above. */
  predicate SomeKeywordMatches(title: string, keywords: seq<string>) {
    exists k | 0 <= k < |keywords| :: KeywordMatches(title, keywords[k])
  }

  /** The walk over the table with its early return: the position of the
      first row with a matching keyword, or `|table|` when there is none. */
  function MatchIndex(table: Table, title: string): (i: nat)
    ensures i <= |table|
    ensures i < |table| ==> SomeKeywordMatches(title, table[i].1)
    ensures forall j :: 0 <= j < i ==> !SomeKeywordMatches(title, table[j].1)
  {
    if table == [] then 0
    else if SomeKeywordMatches(title, table[0].1) then 0
    else 1 + MatchIndex(table[1..], title)
  }

  /** The position in `CategoryNames` of a title's category. */
  function CategoryIndex(title: string): nat {
    MatchIndex(CategoryKeywords, Lower(title))
  }

  /** `getProductCategory(title)`: lower-case the title, return the name of the
      first table row that matches, or `Other`. */
  function GetProductCategory(title: string): (category: string)
    ensures category in CategoryNames
    ensures category == Other <==>
      forall j :: 0 <= j < |CategoryKeywords| ==> !SomeKeywordMatches(Lower(title), CategoryKeywords[j].1)
  {
    var i := MatchIndex(CategoryKeywords, Lower(title));
    if i < |CategoryKeywords| then CategoryKeywords[i].0 else Other
  }

  /** The category is the entry of `CategoryNames` at `CategoryIndex`, so the
      index is the category's priority rank (`Other` last). */
  lemma CategoryAtIndex(title: string)
    ensures CategoryIndex(title) < |CategoryNames|
    ensures GetProductCategory(title) == CategoryNames[CategoryIndex(title)]
  {
  }

  /** First match wins: the category is the name of row `i` exactly when row
      `i` matches and no earlier row does. */
  lemma FirstMatchWins(title: string, i: int)
    requires 0 <= i < |CategoryKeywords|
    ensures GetProductCategory(title) == CategoryKeywords[i].0 <==>
      SomeKeywordMatches(Lower(title), CategoryKeywords[i].1) &&
      forall j :: 0 <= j < i ==> !SomeKeywordMatches(Lower(title), CategoryKeywords[j].1)
  {
    var m := MatchIndex(CategoryKeywords, Lower(title));
    if GetProductCategory(title) == CategoryKeywords[i].0 {
      assert m < |CategoryKeywords|;
      assert CategoryKeywords[m].0 == CategoryKeywords[i].0;
    }
  }

  /** The `keyword + 's'` test never decides anything: a title containing
      the keyword with an `s` appended already contains the keyword. */
  lemma {:induction false} PluralTestRedundant(title: string, keyword: string)
    ensures KeywordMatches(title, keyword) <==>
      Contains(title, keyword) || Contains(title, RemoveFirst(keyword, 's'))
  {
    if Contains(title, keyword + "s") {
      ContainsPrefix(keyword, "s");
      ContainsTransitive(title, keyword + "s", keyword);
    }
  }

  /** Every table keyword is already lower-case, so comparing it with the
      lower-cased title is a case-insensitive comparison. */
  lemma KeywordsAreLowerCase()
    ensures forall j, k :: 0 <= j < |CategoryKeywords| && 0 <= k < |CategoryKeywords[j].1| ==>
      IsLowerCase(CategoryKeywords[j].1[k])
  {
  }

  /** A title that contains a keyword in any mix of upper and lower case
      matches that keyword's row. */
  lemma KeywordInAnyCase(title: string, word: string, j: int, k: int)
    requires 0 <= j < |CategoryKeywords| && 0 <= k < |CategoryKeywords[j].1|
    requires Lower(word) == CategoryKeywords[j].1[k]
    requires Contains(title, word)
    ensures SomeKeywordMatches(Lower(title), CategoryKeywords[j].1)
  {
    ContainsLower(title, word);
    assert KeywordMatches(Lower(title), CategoryKeywords[j].1[k]);
  }

  /** Case does not matter: a title and its lower-case form get the same
      category. */
  lemma CaseInsensitive(title: string)
    ensures GetProductCategory(Lower(title)) == GetProductCategory(title)
  {
    LowerIdempotent(title);
  }

  /** A keyword that matches a title matches every title containing it. */
  lemma {:induction false} KeywordMatchesGrow(small: string, big: string, keyword: string)
    requires Contains(big, small) && KeywordMatches(small, keyword)
    ensures KeywordMatches(big, keyword)
  {
    if Contains(small, keyword) {
      ContainsTransitive(big, small, keyword);
    } else if Contains(small, keyword + "s") {
      ContainsTransitive(big, small, keyword + "s");
    } else {
      ContainsTransitive(big, small, RemoveFirst(keyword, 's'));
    }
  }

  /** Walking any table, a longer title stops no later than a title it
      contains. */
  lemma {:induction false} MatchIndexGrow(table: Table, small: string, big: string)
    requires Contains(big, small)
    ensures MatchIndex(table, big) <= MatchIndex(table, small)
  {
    var i := MatchIndex(table, small);
    if i < |table| {
      var k :| 0 <= k < |table[i].1| && KeywordMatches(small, table[i].1[k]);
      KeywordMatchesGrow(small, big, table[i].1[k]);
      assert SomeKeywordMatches(big, table[i].1);
    }
  }

  /** Extending a title (any title that contains it) keeps its category or
      moves it to an earlier one in priority order. */
  lemma ExtendTitle(small: string, big: string)
    requires Contains(big, small)
    ensures CategoryIndex(big) <= CategoryIndex(small)
    ensures GetProductCategory(big) == GetProductCategory(small) ||
      GetProductCategory(big) in CategoryNames[..CategoryIndex(small)]
  {
    ContainsLower(big, small);
    MatchIndexGrow(CategoryKeywords, Lower(small), Lower(big));
    CategoryAtIndex(small);
    CategoryAtIndex(big);
  }

  /** The third test removes the first `s` of a keyword, which is not always
      its plural ending: `shoes` becomes `hoes` and `trousers` becomes
      `trouers`. */
  lemma FirstSRemoval()
    ensures RemoveFirst("shoes", 's') == "hoes"
    ensures RemoveFirst("trousers", 's') == "trouers"
  {
  }

  /** A string is not contained in a different string of the same length. */
  lemma NotContainedSameLength(s: string, k: string)
    requires |s| == |k| && s != k
    ensures !Contains(s, k)
  {
  }

  /** So the singular `shoe` matches no keyword of the Shoes row. */
  lemma SingularShoeMissed()
    ensures !SomeKeywordMatches("shoe", CategoryKeywords[3].1)
  {
    assert !KeywordMatches("shoe", "shoes") by {
      FirstSRemoval();
      NotContainedSameLength("shoe", "hoes");
    }
    assert !KeywordMatches("shoe", "boots") by {
      assert RemoveFirst("boots", 's') == "boot";
      NotContainedSameLength("shoe", "boot");
    }
    assert !KeywordMatches("shoe", "derby") by {
      assert RemoveFirst("derby", 's') == "derby";
    }
    assert CategoryKeywords[3].1 == ["shoes", "boots", "derby"];
  }

  /** A title with keywords of two rows goes to the earlier row: "Hoodie
      Bomber" matches the Sweaters row (`hoodie`) and the Jackets row
      (`bomber`) and is a jacket. */
  lemma EarlierRowWins()
    ensures SomeKeywordMatches(Lower("Hoodie Bomber"), CategoryKeywords[2].1)
    ensures GetProductCategory("Hoodie Bomber") == "Jackets"
  {
    assert Lower("Hoodie Bomber") == "hoodie bomber";
    assert OccursAt("hoodie bomber", "bomber", 7);
    assert KeywordMatches("hoodie bomber", CategoryKeywords[0].1[2]);
    assert OccursAt("hoodie bomber", "hoodie", 0);
    assert KeywordMatches("hoodie bomber", CategoryKeywords[2].1[2]);
  }
}
