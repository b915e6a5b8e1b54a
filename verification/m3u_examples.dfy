/** Worked examples: small playlists, already split into classified lines,
    and what the parser makes of them. */
module Examples {
  import opened Text
  import opened Categories
  import opened Lines
  import opened Parser

  function Record(id: int, title: string, url: string, category: string): TV
  {
    TV(id, title, title, [url], category, YProto, "", false, false)
  }

  /** Folding five lines is five steps from the initial state. */
  lemma FoldFive(a: Line, b: Line, c: Line, d: Line, e: Line)
    ensures Fold([a, b, c, d, e]) == Step(Step(Step(Step(Step(Initial, a), b), c), d), e)
  {
    assert Fold([a]) == Step(Initial, a) by {
      FoldSnoc([], a);
      assert [] + [a] == [a];
    }
    assert Fold([a, b]) == Step(Fold([a]), b) by {
      FoldSnoc([a], b);
      assert [a] + [b] == [a, b];
    }
    assert Fold([a, b, c]) == Step(Fold([a, b]), c) by {
      FoldSnoc([a, b], c);
      assert [a, b] + [c] == [a, b, c];
    }
    assert Fold([a, b, c, d]) == Step(Fold([a, b, c]), d) by {
      FoldSnoc([a, b, c], d);
      assert [a, b, c] + [d] == [a, b, c, d];
    }
    assert Fold([a, b, c, d, e]) == Step(Fold([a, b, c, d]), e) by {
      FoldSnoc([a, b, c, d], e);
      assert [a, b, c, d] + [e] == [a, b, c, d, e];
    }
  }

  /** A title starting with `CCTV` lands in the first category. */
  lemma CctvIsCentral()
    ensures CategoryFromTitle("CCTV1 综合") == "央视"
  {
    assert StartsWith("CCTV1 综合", "CCTV");
    assert Recognises(Table[0], "CCTV1 综合");
  }

  /** A playlist with no lines has no channels. */
  lemma EmptyPlaylist()
    ensures ParseLines([]) == []
  {
  }

  /** An `#EXTGRP:` group applies to every following entry, not only the
      next one. */
  lemma GroupCarriesOver()
    ensures Fold([GroupLine("G"), EntryLine("A", ""), AddressLine("u1"), EntryLine("B", ""), AddressLine("u2")]).channels
            == [Record(10000, "A", "u1", "G"), Record(10001, "B", "u2", "G")]
  {
    FoldFive(GroupLine("G"), EntryLine("A", ""), AddressLine("u1"), EntryLine("B", ""), AddressLine("u2"));
  }

  /** A `group-title` attribute replaces the pending group, also for the
      entries after it. */
  lemma AttributeGroupSticks()
    ensures Fold([GroupLine("G"), EntryLine("A", "News"), AddressLine("u1"), EntryLine("B", ""), AddressLine("u2")]).channels
            == [Record(10000, "A", "u1", "News"), Record(10001, "B", "u2", "News")]
  {
    FoldFive(GroupLine("G"), EntryLine("A", "News"), AddressLine("u1"), EntryLine("B", ""), AddressLine("u2"));
  }

  /** A URL with no `#EXTINF:` line before it produces nothing. */
  lemma UrlWithoutEntry()
    ensures Fold([AddressLine("u1")]).channels == []
  {
  }

  /** An `#EXTINF:` line in the usual shape: attributes, then the title
      after the last comma. */
  const SampleEntry := WithAttribute("#EXTINF:-1 ", "News", ",CNN")

  /** The attribute value is the text between the quotes. */
  lemma SampleAttribute()
    ensures GroupFromTitleAttribute(SampleEntry) == "News"
  {
    var v := "News";
    assert IsTrimmed(v) && '"' !in v;
    AttributeValue("#EXTINF:-1 ", v, ",CNN");
  }

  /** The title is the text after the last comma. */
  lemma SampleTitle()
    ensures TitleFromExtinf(SampleEntry) == "CNN"
  {
    var s := SampleEntry;
    var prefix := s[..|s| - 4];
    assert s == prefix + "," + "CNN" by {
      assert s[|s| - 4..] == ",CNN";
      assert s == prefix + s[|s| - 4..];
    }
    TitleAfterFinalComma(prefix, "CNN");
  }

  /** The raw line is read as an entry with title `CNN` and group `News`. */
  lemma SampleEntryLine()
    ensures Classify(SampleEntry) == EntryLine("CNN", "News")
  {
    var s := SampleEntry;
    assert StartsWith(s, EntryTag) && !StartsWith(s, GroupTag) by {
      assert s[..11][..8] == s[..8];
      assert "#EXTINF:-1 "[..8] == EntryTag;
      assert EntryTag[4] != GroupTag[4];
    }
    assert Trim(s) == s by {
      assert s[0] == s[..11][0];
      assert s[|s| - 1] == s[|s| - 4..][3];
      TrimTrimmed(s);
    }
    SampleTitle();
    SampleAttribute();
  }

  /** A URL line with nothing around it is read as that URL. */
  lemma SampleUrlLine()
    ensures Classify("http://cnn") == AddressLine("http://cnn")
  {
    var u := "http://cnn";
    assert IsTrimmed(u);
    assert PaddedAt(u, u, 0) by {
      assert u[0..0 + |u|] == u && u[..0] == [] && u[0 + |u|..] == [];
    }
    AddressLineIff(u, u);
  }

  /** Two raw lines are classified one by one. */
  lemma ClassifyTwo(a: string, b: string)
    ensures ClassifyAll([a, b]) == [Classify(a), Classify(b)]
  {
    ClassifyAllSnoc([], a);
    ClassifyAllSnoc([a], b);
    assert [] + [a] == [a] && [a] + [b] == [a, b];
  }

  /** Folding two lines is two steps from the initial state. */
  lemma FoldTwo(a: Line, b: Line)
    ensures Fold([a, b]) == Step(Step(Initial, a), b)
  {
    FoldSnoc([], a);
    FoldSnoc([a], b);
    assert [] + [a] == [a] && [a] + [b] == [a, b];
  }

  /** An entry line with an attribute group, then a URL line, make one
      record. */
  lemma EntryThenUrl(entry: string, url: string, title: string, group: string, u: TrimmedString)
    requires Classify(entry) == EntryLine(title, group) && group != []
    requires Classify(url) == AddressLine(u)
    ensures ParseLines([entry, url]) == [Record(FirstId, title, u, group)]
  {
    ClassifyTwo(entry, url);
    FoldTwo(EntryLine(title, group), AddressLine(u));
  }

  /** The two raw lines of a playlist entry give one record carrying the
      title, the URL and the attribute's group. */
  lemma SamplePlaylist()
    ensures ParseLines([SampleEntry, "http://cnn"]) == [Record(10000, "CNN", "http://cnn", "News")]
  {
    SampleEntryLine();
    SampleUrlLine();
    EntryThenUrl(SampleEntry, "http://cnn", "CNN", "News", "http://cnn");
  }
}
