/** The review a member makes, end to end: credit lines read as `authors.py` reads them, the
    index, the suggestions, their preview, and the batch that submits all of it. */
module Review {
  import opened Wrappers
  import opened Strings
  import opened Spelling
  import opened Aliases
  import opened Index
  import opened Listings
  import opened Repoint
  import opened Batches
  import opened Decisions
  import opened Requests
  import opened Rules
  import opened Suggest
  import opened Preview
  import opened Promise

  /** Names keyed and credit lines split as the code does, over some Unicode tables. */
  function ReadingOf(u: Unicode): Reading
  {
    Reading(Keyer(u), SplitterOf(u))
  }

  function SplitterOf(u: Unicode): Option<string> -> seq<string>
  {
    credit => SplitCredit(u, credit)
  }

  lemma OwnIffSettled(u: Unicode, name: string, k: string)
    requires u.isSpace(' ') && KeyOf(u, ' ') == " " && FoldsToLetters(u, k) && AuthorKey(u, name) == k
    ensures AuthorKey(u, k) == k <==> SettledOn(u, name)
  {
    AuthorKeyIsIdempotentIff(u, name);
  }

  /** The keys an index holds are their own keys exactly where what the characters of its heading
      names fold to folds to itself. */
  lemma KeysAreTheirOwnIff(u: Unicode, shelf: seq<Credit>, rows: seq<Alias>)
    requires u.isSpace(' ') && KeyOf(u, ' ') == " "
    requires forall k :: k in IndexOf(ReadingOf(u), shelf, rows) ==> FoldsToLetters(u, k)
    ensures (forall k :: k in IndexOf(ReadingOf(u), shelf, rows) ==> ReadingOf(u).key(k) == k)
       <==> (forall k :: k in IndexOf(ReadingOf(u), shelf, rows) ==> SettledOn(u, IndexOf(ReadingOf(u), shelf, rows)[k].name))
  {
    var index := IndexOf(ReadingOf(u), shelf, rows);
    forall k | k in index ensures ReadingOf(u).key(k) == k <==> SettledOn(u, index[k].name) {
      NameCarriesKey(ReadingOf(u), shelf, rows, k);
      OwnIffSettled(u, index[k].name, k);
    }
  }

  /** What a preview is: the groups the pass offers of the shelf's index, and beside each the name its batch would keep. */
  ghost predicate IsPreview(r: Reading, naming: Naming, casefold: string -> string, shelf: seq<Credit>, rows: seq<Alias>,
                            spines: map<string, set<string>>, rules: set<Reason>, lines: seq<Line>)
  {
    exists entries, groups :: IsPreviewOf(r, naming, casefold, shelf, rows, spines, rules, entries, groups, lines)
  }

  ghost predicate IsPreviewOf(r: Reading, naming: Naming, casefold: string -> string, shelf: seq<Credit>, rows: seq<Alias>,
                              spines: map<string, set<string>>, rules: set<Reason>,
                              entries: seq<Entry>, groups: seq<Suggestion>, lines: seq<Line>)
  {
    && Lists(entries, IndexOf(r, shelf, rows)) && IsSorted(casefold, entries)
    && IsOffered(NameBy(entries), EdgesFor(naming, entries, spines, rules, MAX_COMPARISONS), groups)
    && PreviewsUnder(r.key, casefold, AsMap(rows), IndexOf(r, shelf, rows), groups, lines)
  }

  /** What `GET /authors/suggestions` answers. */
  method ReadPreview(r: Reading, naming: Naming, casefold: string -> string, shelf: seq<Credit>, rows: seq<Alias>,
                     spines: map<string, set<string>>, rules: set<Reason>)
      returns (lines: seq<Line>)
    requires WalksWords(naming) && WellKeyed(rows)
    ensures IsPreview(r, naming, casefold, shelf, rows, spines, rules, lines)
  {
    var index := BuildIndex(r, shelf, rows);
    IndexIsHeaded(r, shelf, rows);
    var entries := ListEntries(casefold, index);
    var offered := SuggestMerges(naming, entries, spines, rules);
    lines := Suggestions(r, casefold, rows, index, offered);
    assert IsPreviewOf(r, naming, casefold, shelf, rows, spines, rules, entries, offered, lines);
  }

  /** What a preview is made of. */
  lemma PreviewIsProposed(r: Reading, naming: Naming, casefold: string -> string, shelf: seq<Credit>, rows: seq<Alias>,
                          spines: map<string, set<string>>, rules: set<Reason>, lines: seq<Line>)
      returns (entries: seq<Entry>, groups: seq<Suggestion>, aliases: AliasIndex)
    requires IsPreview(r, naming, casefold, shelf, rows, spines, rules, lines)
    ensures Lists(entries, IndexOf(r, shelf, rows)) && Proposed(IndexOf(r, shelf, rows).Keys, groups)
    ensures IsOffered(NameBy(entries), EdgesFor(naming, entries, spines, rules, MAX_COMPARISONS), groups)
    ensures IndexesAliases(r.key, AsMap(rows), aliases)
    ensures Previews(r.key, casefold, IndexOf(r, shelf, rows), aliases, groups, lines)
  {
    entries, groups :| IsPreviewOf(r, naming, casefold, shelf, rows, spines, rules, entries, groups, lines);
    OffersAreProposed(IndexOf(r, shelf, rows), entries, EdgesFor(naming, entries, spines, rules, MAX_COMPARISONS), groups);
    aliases :| IndexesAliases(r.key, AsMap(rows), aliases) && Previews(r.key, casefold, IndexOf(r, shelf, rows), aliases, groups, lines);
  }

  lemma OffersAreProposed(index: map<string, Entry>, entries: seq<Entry>, edges: seq<Edge>, groups: seq<Suggestion>)
    requires Lists(entries, index) && IsOffered(NameBy(entries), edges, groups)
    ensures Proposed(index.Keys, groups)
  {
    var all :| IsGrouping(NameBy(entries), edges, all) && IsCut(all, groups) && groups <= Rank(all);
    OfferedIsProposed(index, entries, edges, all, groups);
  }

  /** Any preview of a flat table, submitted whole, does what it shows, to the people it shows and nobody
      else, if and only if the submission is within the bounds of a request and what each group of it
      asks for is its own names. */
  lemma AnyPreviewIsKeptIff(r: Reading, naming: Naming, casefold: string -> string, shelf: seq<Credit>, rows: seq<Alias>,
                            spines: map<string, set<string>>, rules: set<Reason>, lines: seq<Line>)
    requires Flat(r.key, AsMap(rows))
    requires IsPreview(r, naming, casefold, shelf, rows, spines, rules, lines)
    ensures IsKept(r.key, AsMap(rows), ReachableIn(IndexOf(r, shelf, rows)), lines)
       <==> IsSafe(r.key, lines)
  {
    var entries, groups, aliases := PreviewIsProposed(r, naming, casefold, shelf, rows, spines, rules, lines);
    PromiseIsKeptIff(r, casefold, shelf, rows, aliases, groups, lines);
  }

  /** And where every name in it means afterwards the name shown beside it, nobody else was touched. */
  lemma FoldingIsKeeping(r: Reading, naming: Naming, casefold: string -> string, shelf: seq<Credit>, rows: seq<Alias>,
                         spines: map<string, set<string>>, rules: set<Reason>, lines: seq<Line>)
    requires Flat(r.key, AsMap(rows)) && Passes(r.key, Submitted(lines))
    requires IsPreview(r, naming, casefold, shelf, rows, spines, rules, lines)
    requires FoldsTheLines(r.key, BatchMap(AsMap(rows), PlansOf(r.key, Submitted(lines))), lines)
    ensures IsKept(r.key, AsMap(rows), ReachableIn(IndexOf(r, shelf, rows)), lines)
  {
    var entries, groups, aliases := PreviewIsProposed(r, naming, casefold, shelf, rows, spines, rules, lines);
    PromiseIsKeptIff(r, casefold, shelf, rows, aliases, groups, lines);
  }

  /** A shelf whose keys are their own keys offers no group that asks for others. */
  lemma OwnKeysAskForThemselves(r: Reading, naming: Naming, casefold: string -> string, shelf: seq<Credit>, rows: seq<Alias>,
                                spines: map<string, set<string>>, rules: set<Reason>, lines: seq<Line>)
    requires forall k :: k in IndexOf(r, shelf, rows).Keys ==> r.key(k) == k
    requires IsPreview(r, naming, casefold, shelf, rows, spines, rules, lines)
    ensures LinesAskForThemselves(r.key, lines)
  {
    var entries, groups, aliases := PreviewIsProposed(r, naming, casefold, shelf, rows, spines, rules, lines);
    LinesAreListed(r.key, casefold, IndexOf(r, shelf, rows), aliases, groups, lines);
    forall l | l in lines ensures AskForThemselves(r.key, l.keys) {
      OwnNamesAskForThemselves(r.key, l.keys);
    }
  }

  lemma OwnNamesAskForThemselves(ak: string -> string, keys: seq<string>)
    requires forall k :: k in keys ==> ak(k) == k
    ensures AskForThemselves(ak, keys)
  {
    forall k | k in keys ensures ak(k) == k {
    }
  }

  /** Two names of the group are already decided. */
  ghost predicate TwoDecided(ak: string -> string, m: map<string, string>, keys: seq<string>)
  {
    exists c, d :: c in keys && d in keys && c != d && IsDecided(ak, m, c) && IsDecided(ak, m, d)
  }

  /** At either end of some row. */
  ghost predicate IsDecided(ak: string -> string, m: map<string, string>, k: string)
  {
    k in m || exists a :: a in m && ak(m[a]) == k
  }

  lemma TwoDecidedIsTheCount(ak: string -> string, m: map<string, string>, index: AliasIndex, keys: seq<string>)
    requires IndexesAliases(ak, m, index)
    ensures TwoDecided(ak, m, keys)
       <==> exists c, d :: c in keys && d in keys && c != d && c in index.Decided() && d in index.Decided()
  {
    forall k ensures k in index.Decided() <==> IsDecided(ak, m, k) {
      DecidedIsBothEnds(ak, m, index, k);
    }
  }

  /** After any run of merges, batches and undoings, a preview holds back exactly the groups two of
      whose names are at an end of some row. */
  lemma EveryPreviewHoldsBackIffTwoDecided(r: Reading, naming: Naming, casefold: string -> string, shelf: seq<Credit>, requests: seq<Request>,
                                           spines: map<string, set<string>>, rules: set<Reason>, lines: seq<Line>, l: Line)
    requires forall q :: q in requests && q.BatchRequest? ==> WellFormed(r.key, q.plans)
    requires IsPreview(r, naming, casefold, shelf, Run(r, [], requests), spines, rules, lines) && l in lines
    ensures l.keep.None? <==> TwoDecided(r.key, AsMap(Run(r, [], requests)), l.keys)
  {
    var rows := Run(r, [], requests);
    EmptyTableIsFlat(r.key);
    EveryRunStaysFlat(r, [], requests);
    var entries, groups, aliases := PreviewIsProposed(r, naming, casefold, shelf, rows, spines, rules, lines);
    var i :| 0 <= i < |lines| && lines[i] == l;
    assert groups[i] in groups;
    FlatTableHoldsBackIffTwoDecided(r, casefold, shelf, rows, aliases, groups[i].keys);
    TwoDecidedIsTheCount(r.key, AsMap(rows), aliases, groups[i].keys);
  }

  // ── The request ───────────────────────────────────────────────────────────

  /** What `POST /authors/merge/batch` answers: turned away by the request model, or by the batch, or done. */
  datatype Response = Malformed | Refused(refusal: Refusal) | Merged(entries: seq<Entry>)

  /** Which of the three it is. */
  ghost predicate IsAnswered(ak: string -> string, m: map<string, string>, reachable: set<string>, groups: seq<Group>, response: Response)
  {
    var refusal := BatchRefusal(ak, m, reachable, PlansOf(ak, groups));
    && (response.Malformed? <==> !Passes(ak, groups))
    && (response.Refused? ==> refusal == Some(response.refusal))
    && (response.Merged? ==> refusal.None?)
  }

  /** What the table is after it. */
  function RowsAfter(ak: string -> string, rows: seq<Alias>, groups: seq<Group>, response: Response): seq<Alias>
  {
    if response.Merged? then BatchRows(rows, PlansOf(ak, groups)) else rows
  }

  /** Sends these groups as one batch. */
  method Submit(authorship: Authorship, shelf: seq<Credit>, groups: seq<Group>) returns (response: Response)
    requires authorship.Valid() && Flat(authorship.r.key, AsMap(authorship.rows))
    modifies authorship
    ensures authorship.Valid() && Flat(authorship.r.key, AsMap(authorship.rows))
    ensures IsAnswered(authorship.r.key, AsMap(old(authorship.rows)), ReachableIn(IndexOf(authorship.r, shelf, old(authorship.rows))), groups, response)
    ensures authorship.rows == RowsAfter(authorship.r.key, old(authorship.rows), groups, response)
  {
    var passes := CheckBatch(authorship.r.key, groups);
    if !passes {
      return Malformed;
    }
    PassesIsWellFormed(authorship.r.key, groups);
    BatchIs(authorship.r, shelf, authorship.rows, PlansOf(authorship.r.key, groups));
    var answer := authorship.MergeBatch(shelf, groups);
    response := match answer case Ok(entries) => Merged(entries) case Err(refusal) => Refused(refusal);
  }

  lemma AnsweredIsKept(ak: string -> string, rows: seq<Alias>, reachable: set<string>, lines: seq<Line>, response: Response)
    requires WellKeyed(rows) && IsAnswered(ak, AsMap(rows), reachable, Submitted(lines), response)
    ensures response.Merged? && AppliesTheLines(ak, AsMap(rows), AsMap(RowsAfter(ak, rows, Submitted(lines), response)), lines)
       <==> IsKept(ak, AsMap(rows), reachable, lines)
  {
    BatchOnlyAdds(rows, PlansOf(ak, Submitted(lines)));
  }

  /** What a review came to: the lines shown, what sending them was answered, and the table afterwards,
      in which every key means what the lines say if and only if the submission is within the bounds
      of a request and each group of it asks for its own names. */
  ghost predicate IsReviewed(r: Reading, naming: Naming, casefold: string -> string, shelf: seq<Credit>, rows: seq<Alias>,
                             spines: map<string, set<string>>, rules: set<Reason>, lines: seq<Line>, response: Response, after: seq<Alias>)
  {
    && IsPreview(r, naming, casefold, shelf, rows, spines, rules, lines)
    && IsAnswered(r.key, AsMap(rows), ReachableIn(IndexOf(r, shelf, rows)), Submitted(lines), response)
    && after == RowsAfter(r.key, rows, Submitted(lines), response)
    && (response.Merged? && AppliesTheLines(r.key, AsMap(rows), AsMap(after), lines) <==> IsSafe(r.key, lines))
  }

  lemma AnsweredIsReviewed(r: Reading, naming: Naming, casefold: string -> string, shelf: seq<Credit>, rows: seq<Alias>,
                           spines: map<string, set<string>>, rules: set<Reason>, lines: seq<Line>, response: Response, after: seq<Alias>)
    requires Flat(r.key, AsMap(rows)) && WellKeyed(rows)
    requires IsPreview(r, naming, casefold, shelf, rows, spines, rules, lines)
    requires IsAnswered(r.key, AsMap(rows), ReachableIn(IndexOf(r, shelf, rows)), Submitted(lines), response)
    requires after == RowsAfter(r.key, rows, Submitted(lines), response)
    ensures IsReviewed(r, naming, casefold, shelf, rows, spines, rules, lines, response, after)
  {
    AnyPreviewIsKeptIff(r, naming, casefold, shelf, rows, spines, rules, lines);
    AnsweredIsKept(r.key, rows, ReachableIn(IndexOf(r, shelf, rows)), lines, response);
  }

  /** Send every group these lines do not hold back, as one batch, with no other writer since they were read. */
  method SubmitTheLines(naming: Naming, casefold: string -> string, authorship: Authorship, shelf: seq<Credit>,
                        spines: map<string, set<string>>, rules: set<Reason>, lines: seq<Line>) returns (response: Response)
    requires authorship.Valid() && Flat(authorship.r.key, AsMap(authorship.rows))
    requires IsPreview(authorship.r, naming, casefold, shelf, authorship.rows, spines, rules, lines)
    modifies authorship
    ensures authorship.Valid() && Flat(authorship.r.key, AsMap(authorship.rows))
    ensures IsReviewed(authorship.r, naming, casefold, shelf, old(authorship.rows), spines, rules, lines, response, authorship.rows)
  {
    response := Submit(authorship, shelf, Submitted(lines));
    AnsweredIsReviewed(authorship.r, naming, casefold, shelf, old(authorship.rows), spines, rules, lines, response, authorship.rows);
  }

  /** Read the suggestions, then send all of them that may be sent. */
  method SubmitThePreview(tokens: string -> seq<string>, casefold: string -> string, authorship: Authorship,
                          shelf: seq<Credit>, spines: map<string, set<string>>, rules: set<Reason>)
      returns (lines: seq<Line>, response: Response)
    requires WalksWords(Naming(authorship.r.key, tokens))
    requires authorship.Valid() && Flat(authorship.r.key, AsMap(authorship.rows))
    modifies authorship
    ensures authorship.Valid() && Flat(authorship.r.key, AsMap(authorship.rows))
    ensures IsReviewed(authorship.r, Naming(authorship.r.key, tokens), casefold, shelf, old(authorship.rows), spines, rules,
                       lines, response, authorship.rows)
  {
    lines := ReadPreview(authorship.r, Naming(authorship.r.key, tokens), casefold, shelf, authorship.rows, spines, rules);
    response := SubmitTheLines(Naming(authorship.r.key, tokens), casefold, authorship, shelf, spines, rules, lines);
  }

  /** The same, of a shelf nobody has decided anything about. */
  method SubmitTheFirstPreview(r: Reading, tokens: string -> seq<string>, casefold: string -> string, shelf: seq<Credit>,
                               spines: map<string, set<string>>, rules: set<Reason>)
      returns (lines: seq<Line>, response: Response, rows: seq<Alias>)
    requires WalksWords(Naming(r.key, tokens))
    ensures IsReviewed(r, Naming(r.key, tokens), casefold, shelf, [], spines, rules, lines, response, rows)
  {
    var authorship := new Authorship(r);
    lines, response := SubmitThePreview(tokens, casefold, authorship, shelf, spines, rules);
    rows := authorship.rows;
  }
}
