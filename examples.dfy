/**
 * Concrete instances of the model on the `motet_a` record used by the
 * repository's HTTP tests.
 */
module Examples {
  import opened Text
  import opened Records
  import opened InvertedIndex
  import opened Intra
  import opened Words
  import opened SortedSet

  const Motet: User := User("motet_a", "antoine", "motet", "FR/LYN", 2015)

  /** The year's key is its decimal numeral. */
  lemma YearKey()
    ensures IntToString(2015) == "2015"
  {
    assert NatToString(2) == "2";
    assert NatToString(20) == "20";
    assert NatToString(201) == "201";
  }

  /** The login before its `_` is a key of its own. */
  lemma MotetKeys()
    ensures LoginPrefix(Motet.login) == "motet"
    ensures UserKeys(Motet) == ["motet_a", "motet", "antoine", "motet", "2015", "FR/LYN"]
  {
    assert Motet.login[5] == '_';
    assert '_' !in Motet.login[..5];
    YearKey();
  }

  /** Indexing the record alone lists it once under "motet", its last name and its login prefix. */
  lemma MotetIndexed()
    ensures Get(IndexOf([Motet]), "motet") == ["motet_a"]
  {
    MotetKeys();
    assert IndexOf([Motet]) == IndexUser(map[], Motet);
    IndexUserAt(map[], Motet, "motet");
  }

  /** The directory record of that user converts to it. */
  lemma MotetFromServer()
    ensures ConvertServerUser(ServerUser("motet_a", "antoine", "motet", "FR/LYN"), 2015) == Motet
  {
  }

  /** Seen in 2016 and again in 2015, the user is kept once with the earlier year. */
  lemma MotetMerged()
    ensures MergeAll([Motet.(year := 2016), Motet]) == [Motet]
  {
    assert MergeAll([Motet.(year := 2016)]) == [Motet.(year := 2016)];
    assert IndexOfLogin([Motet.(year := 2016)], Motet.login) == 0;
  }

  /** A query repeating its only word looks nothing up. */
  lemma RepeatedWord()
    ensures UniqueWords(["motet", "motet"]) == []
  {
    assert multiset(["motet", "motet"])["motet"] == 2;
  }

  /** The slice after a word's rank holds the word and what follows it, up to the end of the set. */
  lemma SliceAtEnd()
    ensures Range(["a", "b", "c"], 1, 43) == ["b", "c"]
  {
  }

  /** A login holding a space is saved as one and read back as two. */
  lemma SpacedLoginReadsAsTwo()
    ensures ReadLogins(Join(["a b"], ' ')) == ["a", "b"]
  {
    SplitAtSep("a", ' ', "b");
    SplitNoSep("b", ' ');
  }
}
