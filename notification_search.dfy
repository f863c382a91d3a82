/** The search panel: look a notice up by its token or by its acceptance
    hash, show the one row found, and clear the form. */
module NotificationSearch {
  import opened Text
  import opened Notices
  import opened NoticeStore

  /** The column and value a search queries. */
  datatype LookupKey = ByToken(token: string) | ByHash(hash: string)

  /** Tokens are stored in upper case: the typed token is trimmed and upper-cased. */
  function NormalizeToken(s: string): (r: string)
    ensures HasNoLowerCase(r)
    ensures |r| <= |s|
  {
    ToUpper(Trim(s))
  }

  /** Hashes are stored as lower-case hex: the typed hash is trimmed and lower-cased. */
  function NormalizeHash(s: string): (r: string)
    ensures HasNoUpperCase(r)
    ensures |r| <= |s|
  {
    ToLower(Trim(s))
  }

  /** Case mapping keeps the first and last characters non-white, so a
      normalised key is its own trim. */
  lemma CaseMapKeepsTrimmed(t: string)
    requires t == [] || (!IsJsWhitespace(t[0]) && !IsJsWhitespace(t[|t| - 1]))
    ensures Trim(ToUpper(t)) == ToUpper(t) && Trim(ToLower(t)) == ToLower(t)
  {
    if t != [] {
      CaseKeepsWhitespace(t[0]);
      CaseKeepsWhitespace(t[|t| - 1]);
    }
    TrimOfTrimmed(ToUpper(t));
    TrimOfTrimmed(ToLower(t));
  }

  /** Normalising a key twice gives the same key as normalising it once. */
  lemma NormalizeIdempotent(s: string)
    ensures NormalizeToken(NormalizeToken(s)) == NormalizeToken(s)
    ensures NormalizeHash(NormalizeHash(s)) == NormalizeHash(s)
  {
    CaseMapKeepsTrimmed(Trim(s));
    ToUpperIdempotent(Trim(s));
    ToLowerIdempotent(Trim(s));
  }

  /** The key choice of `handleSearch`. The emptiness tests look at the typed
      text before trimming; a non-empty token wins over the hash. */
  function ChooseKey(searchToken: string, searchHash: string): (k: Option<LookupKey>)
    ensures k.None? <==> searchToken == "" && searchHash == ""
    ensures searchToken != "" ==> k == Some(ByToken(NormalizeToken(searchToken)))
    ensures searchToken == "" && searchHash != "" ==> k == Some(ByHash(NormalizeHash(searchHash)))
  {
    if searchToken == "" && searchHash == "" then None
    else if searchToken != "" then Some(ByToken(NormalizeToken(searchToken)))
    else Some(ByHash(NormalizeHash(searchHash)))
  }

  /** When a token is typed, the hash field makes no difference. */
  lemma TokenTakesPrecedence(searchToken: string, hash1: string, hash2: string)
    requires searchToken != ""
    ensures ChooseKey(searchToken, hash1) == ChooseKey(searchToken, hash2)
    ensures ChooseKey(searchToken, hash1).value.ByToken?
  {
  }

  /** The key expression lets a token field holding only white space win
      over the hash and ask for the empty token. The inputs' gating keeps a
      typed hash beside such a token out of reach (`OneKeyTyped`), so on
      the page a blank token searches for the empty token with the hash
      field empty. */
  lemma BlankTokenShadowsHash(hash: string)
    ensures ChooseKey(" ", hash) == Some(ByToken(""))
  {
    assert TrimStart(" ") == [];
  }

  /** A stored token (no lower-case letter, no white space at its ends) is
      found when typed in lower case with spaces around it. */
  lemma LowerCaseTokenIsFound(token: string, hash: string)
    requires |token| >= 1 && HasNoLowerCase(token)
    requires !IsJsWhitespace(token[0]) && !IsJsWhitespace(token[|token| - 1])
    ensures ChooseKey(" " + ToLower(token) + " ", hash) == Some(ByToken(token))
  {
    var typed := " " + ToLower(token) + " ";
    CaseKeepsWhitespace(token[0]);
    CaseKeepsWhitespace(token[|token| - 1]);
    var lower := ToLower(token);
    assert TrimStart(typed) == lower + " " by {
      assert typed[1..] == lower + " ";
    }
    assert TrimEnd(lower + " ") == lower by {
      assert (lower + " ")[..|lower + " "| - 1] == lower;
    }
    assert Trim(typed) == lower;
    UpperOfLower(token);
  }

  function KeyColumn(k: LookupKey): Column {
    match k
    case ByToken(_) => TokenColumn
    case ByHash(_) => HashColumn
  }

  function KeyValue(k: LookupKey): string {
    match k
    case ByToken(t) => t
    case ByHash(h) => h
  }

  /** The toast a search ends with. */
  datatype SearchMessage = AskForKey | NotFoundMessage | FoundMessage | SearchFailed

  class SearchPanel {
    var searchToken: string
    var searchHash: string
    var isSearching: bool
    var result: Option<Notice>

    constructor ()
      ensures searchToken == "" && searchHash == "" && !isSearching && result == None
    {
      searchToken := "";
      searchHash := "";
      isSearching := false;
      result := None;
    }

    /** At most one of the two fields holds text. */
    predicate OneKeyTyped()
      reads this
    {
      searchToken == "" || searchHash == ""
    }

    /** Typing in the token field, which is disabled while a search runs or
        while the hash field holds text. */
    method TypeToken(token: string)
      requires !isSearching && searchHash == ""
      modifies this
      ensures searchToken == token && searchHash == old(searchHash)
      ensures isSearching == old(isSearching) && result == old(result)
      ensures OneKeyTyped()
    {
      searchToken := token;
    }

    /** Typing in the hash field, which is disabled while a search runs or
        while the token field holds text. */
    method TypeHash(hash: string)
      requires !isSearching && searchToken == ""
      modifies this
      ensures searchHash == hash && searchToken == old(searchToken)
      ensures isSearching == old(isSearching) && result == old(result)
      ensures OneKeyTyped()
    {
      searchHash := hash;
    }

    /** `handleSearch` against the rows of `table`; `transportFails` says
        whether the query failed on its way. With both fields empty nothing is
        queried and nothing changes. Otherwise the one matching row becomes
        the result, no row or several clear it (PGRST116), any other error
        keeps the previous result, and the search flag ends false. */
    method HandleSearch(table: seq<Notice>, transportFails: bool) returns (message: SearchMessage)
      modifies this
      ensures searchToken == old(searchToken) && searchHash == old(searchHash)
      ensures ChooseKey(searchToken, searchHash).None? ==>
                message == AskForKey && isSearching == old(isSearching) && result == old(result)
      ensures ChooseKey(searchToken, searchHash).Some? ==>
                var k := ChooseKey(searchToken, searchHash).value;
                var found := Single(table, KeyColumn(k), KeyValue(k), transportFails);
                !isSearching
                && (found.Row? ==> result == Some(found.row) && message == FoundMessage)
                && (found.NoSingleRow? ==> result == None && message == NotFoundMessage)
                && (found.QueryError? ==> result == old(result) && message == SearchFailed)
    {
      var key := ChooseKey(searchToken, searchHash);
      if key.None? {
        return AskForKey;
      }
      isSearching := true;
      var k := key.value;
      var found := Single(table, KeyColumn(k), KeyValue(k), transportFails);
      match found {
        case Row(row) =>
          result := Some(row);
          message := FoundMessage;
        case NoSingleRow =>
          result := None;
          message := NotFoundMessage;
        case QueryError =>
          message := SearchFailed;
        case NoRow =>
          assert false;
          message := SearchFailed;
      }
      isSearching := false;
    }

    /** `handleClear`: both fields and the result are emptied. */
    method HandleClear()
      modifies this
      ensures searchToken == "" && searchHash == "" && result == None
      ensures isSearching == old(isSearching)
    {
      searchToken := "";
      searchHash := "";
      result := None;
    }
  }
}
