/** `download_data`: the expiry check, then one query per satellite list in
    insertion order, each successful response saved with its carriage
    returns removed. The network is replaced by the responses it gives and
    the file system by a map from file name to content. */
module Download {
  import opened SatLists
  import opened Query
  import opened Session

  /** What opening one query URL produces. */
  datatype FetchResponse =
    | Body(text: string)   // the decoded response body
    | HttpError            // caught: the call returns False
    | UrlError             // not caught in `download_data`: it propagates

  /** How a call of `download_data` ends. */
  datatype Exit = Returned(value: bool) | RaisedUrlError

  type Files = map<string, string>

  /** `data.replace("\r", "")`. */
  function StripCR(s: string): (r: string)
    ensures '\r' !in r
    ensures |r| <= |s|
    ensures forall c :: c != '\r' ==> multiset(r)[c] == multiset(s)[c]
  {
    if |s| == 0 then ""
    else
      assert s == [s[0]] + s[1..];
      if s[0] == '\r' then StripCR(s[1..]) else [s[0]] + StripCR(s[1..])
  }

  /** Removing carriage returns commutes with concatenation, so every other
      character survives in its original order. */
  lemma {:induction false} StripCRConcat(a: string, b: string)
    ensures StripCR(a + b) == StripCR(a) + StripCR(b)
    decreases |a|
  {
    if |a| > 0 {
      assert (a + b)[1..] == a[1..] + b;
      StripCRConcat(a[1..], b);
    } else {
      assert a + b == b;
    }
  }

  /** Text without carriage returns is saved unchanged; in particular
      stripping twice is stripping once. */
  lemma {:induction false} StripCRFixed(s: string)
    requires '\r' !in s
    ensures StripCR(s) == s
    decreases |s|
  {
    if |s| > 0 {
      StripCRFixed(s[1..]);
    }
  }

  lemma StripCRIdempotent(s: string)
    ensures StripCR(StripCR(s)) == StripCR(s)
  {
  }

  /** `"A\r\nB\r\n"` is saved as `"A\nB\n"`. */
  lemma StripCRExample()
    ensures StripCR("A\r\nB\r\n") == "A\nB\n"
  {
  }

  /** The number of leading responses that are bodies: the lists that are
      fetched and saved before the loop stops. */
  function Succeeded(fetches: seq<FetchResponse>): (k: nat)
    ensures k <= |fetches|
    ensures forall i :: 0 <= i < k ==> fetches[i].Body?
    ensures k < |fetches| ==> !fetches[k].Body?
  {
    if |fetches| == 0 || !fetches[0].Body? then 0 else 1 + Succeeded(fetches[1..])
  }

  /** The file names the loop writes when it saves the first `k` lists. */
  function WrittenNames(lists: Lists, k: nat): set<string>
    requires k <= |lists|
  {
    set i | 0 <= i < k :: FileName(lists[i].name)
  }

  /** What the loop leaves behind. */
  datatype Step = Step(exit: Exit, files: Files, requests: seq<string>)

  /** The `for listname in self.lists` loop. The `k`-th list is answered by
      `fetches[k]`. Empty lists are not skipped. */
  function FetchLists(lists: Lists, fetches: seq<FetchResponse>, files: Files): (r: Step)
    requires |fetches| == |lists|
    ensures var k := Succeeded(fetches);
            && (r.exit == Returned(true) <==> k == |lists|)
            && (k < |lists| && fetches[k].HttpError? ==> r.exit == Returned(false))
            && (k < |lists| && fetches[k].UrlError? ==> r.exit == RaisedUrlError)
    ensures var k := Succeeded(fetches);
            var attempted := if k < |lists| then k + 1 else k;
            && |r.requests| == attempted
            && forall i :: 0 <= i < attempted ==> r.requests[i] == QueryUrl(lists[i].numbers)
    decreases |lists|
  {
    if |lists| == 0 then Step(Returned(true), files, [])
    else
      var query := QueryUrl(lists[0].numbers);
      match fetches[0]
      case HttpError => Step(Returned(false), files, [query])
      case UrlError => Step(RaisedUrlError, files, [query])
      case Body(text) =>
        var rest := FetchLists(lists[1..], fetches[1..], files[FileName(lists[0].name) := StripCR(text)]);
        Step(rest.exit, rest.files, [query] + rest.requests)
  }

  /** A file that none of the saved lists maps to keeps its presence and its
      content. */
  lemma {:induction false} UntouchedFile(lists: Lists, fetches: seq<FetchResponse>, files: Files, f: string)
    requires |fetches| == |lists|
    requires f !in WrittenNames(lists, Succeeded(fetches))
    ensures var out := FetchLists(lists, fetches, files).files;
            (f in out <==> f in files) && (f in files ==> out[f] == files[f])
    decreases |lists|
  {
    if |lists| > 0 && fetches[0].Body? {
      var k := Succeeded(fetches);
      var first := FileName(lists[0].name);
      assert first in WrittenNames(lists, k);
      forall i | 0 <= i < k - 1
        ensures FileName(lists[1..][i].name) != f
      {
        assert FileName(lists[1..][i].name) == FileName(lists[i + 1].name);
        assert FileName(lists[i + 1].name) in WrittenNames(lists, k);
      }
      UntouchedFile(lists[1..], fetches[1..], files[first := StripCR(fetches[0].text)], f);
    }
  }

  /** Each list before the first failed fetch has its file holding its
      response with carriage returns removed. */
  lemma {:induction false} SavedFile(lists: Lists, fetches: seq<FetchResponse>, files: Files, i: nat)
    requires |fetches| == |lists| && Distinct(lists)
    requires i < Succeeded(fetches)
    ensures var out := FetchLists(lists, fetches, files).files;
            FileName(lists[i].name) in out && out[FileName(lists[i].name)] == StripCR(fetches[i].text)
    decreases |lists|
  {
    var first := FileName(lists[0].name);
    var files1 := files[first := StripCR(fetches[0].text)];
    if i == 0 {
      forall j | 0 <= j < Succeeded(fetches) - 1
        ensures FileName(lists[1..][j].name) != first
      {
        assert lists[1..][j].name == lists[j + 1].name != lists[0].name;
        if FileName(lists[1..][j].name) == first {
          FileNameInjective(lists[1..][j].name, lists[0].name);
        }
      }
      UntouchedFile(lists[1..], fetches[1..], files1, first);
    } else {
      SavedFile(lists[1..], fetches[1..], files1, i - 1);
      assert lists[1..][i - 1] == lists[i];
    }
  }

  /** The files after the loop: those of the lists before the first failed
      fetch hold their stripped responses, and every other file is as it
      was. */
  lemma {:induction false} FilesWritten(lists: Lists, fetches: seq<FetchResponse>, files: Files)
    requires |fetches| == |lists| && Distinct(lists)
    ensures var k := Succeeded(fetches);
            var out := FetchLists(lists, fetches, files).files;
            && out.Keys == files.Keys + WrittenNames(lists, k)
            && (forall i :: 0 <= i < k ==> out[FileName(lists[i].name)] == StripCR(fetches[i].text))
            && (forall f :: f in files && f !in WrittenNames(lists, k) ==> out[f] == files[f])
  {
    SavedContents(lists, fetches, files);
    KeysAfterLoop(lists, fetches, files);
  }

  lemma {:induction false} SavedContents(lists: Lists, fetches: seq<FetchResponse>, files: Files)
    requires |fetches| == |lists| && Distinct(lists)
    ensures var out := FetchLists(lists, fetches, files).files;
            forall i :: 0 <= i < Succeeded(fetches) ==>
              FileName(lists[i].name) in out && out[FileName(lists[i].name)] == StripCR(fetches[i].text)
  {
    forall i | 0 <= i < Succeeded(fetches)
      ensures var out := FetchLists(lists, fetches, files).files;
              FileName(lists[i].name) in out && out[FileName(lists[i].name)] == StripCR(fetches[i].text)
    {
      SavedFile(lists, fetches, files, i);
    }
  }

  lemma {:induction false} KeysAfterLoop(lists: Lists, fetches: seq<FetchResponse>, files: Files)
    requires |fetches| == |lists| && Distinct(lists)
    ensures var out := FetchLists(lists, fetches, files).files;
            var written := WrittenNames(lists, Succeeded(fetches));
            && out.Keys == files.Keys + written
            && forall f :: f in files && f !in written ==> out[f] == files[f]
  {
    var out := FetchLists(lists, fetches, files).files;
    var written := WrittenNames(lists, Succeeded(fetches));
    forall f
      ensures f in out <==> f in files || f in written
      ensures f in files && f !in written ==> out[f] == files[f]
    {
      if f in written {
        var i :| 0 <= i < Succeeded(fetches) && f == FileName(lists[i].name);
        SavedFile(lists, fetches, files, i);
      } else {
        UntouchedFile(lists, fetches, files, f);
      }
    }
  }

  /** What a call of `download_data` leaves behind, with the number of login
      attempts it made. */
  datatype Run = Run(exit: Exit, session: Session, files: Files, requests: seq<string>,
                     loginAttempts: nat)

  /** `download_data` at time `now`. `login` is what a re-login would get
      back; it is used only when the session has expired. */
  function DownloadData(s: Session, lists: Lists, now: int, login: LoginResponse,
                        fetches: seq<FetchResponse>, files: Files): (r: Run)
    requires |fetches| == |lists|
    ensures r.loginAttempts == if LoginExpired(s, now) then 1 else 0
    ensures r.session == (if LoginExpired(s, now) && Accepted(login) then Session(now) else s)
    ensures LoginExpired(s, now) && !Accepted(login) ==>
              r.exit == Returned(false) && r.files == files && r.requests == []
    ensures !LoginExpired(s, now) || Accepted(login) ==>
              var step := FetchLists(lists, fetches, files);
              r.exit == step.exit && r.files == step.files && r.requests == step.requests
  {
    if LoginExpired(s, now) then
      var result := LogIn(s, now, login);
      if !result.ok then Run(Returned(false), result.session, files, [], 1)
      else
        var step := FetchLists(lists, fetches, files);
        Run(step.exit, result.session, step.files, step.requests, 1)
    else
      var step := FetchLists(lists, fetches, files);
      Run(step.exit, s, step.files, step.requests, 0)
  }

  /** The call returns True exactly when the session was usable and every
      list's fetch succeeded. */
  lemma DownloadSucceedsIff(s: Session, lists: Lists, now: int, login: LoginResponse,
                            fetches: seq<FetchResponse>, files: Files)
    requires |fetches| == |lists|
    ensures DownloadData(s, lists, now, login, fetches, files).exit == Returned(true) <==>
              (!LoginExpired(s, now) || Accepted(login))
              && forall i :: 0 <= i < |fetches| ==> fetches[i].Body?
  {
  }

  /** A list with no identifiers is still requested, with an empty
      identifier segment, and its response still saved. */
  lemma EmptyListStillFetched(lists: Lists, fetches: seq<FetchResponse>, files: Files, i: nat)
    requires |fetches| == |lists| && Distinct(lists)
    requires i <= Succeeded(fetches) && i < |lists| && lists[i].numbers == []
    ensures FetchLists(lists, fetches, files).requests[i] == Prefix + Suffix
    ensures i < Succeeded(fetches) ==>
              var out := FetchLists(lists, fetches, files).files;
              FileName(lists[i].name) in out && out[FileName(lists[i].name)] == StripCR(fetches[i].text)
  {
    EmptyListQuery();
    if i < Succeeded(fetches) {
      SavedFile(lists, fetches, files, i);
    }
  }

  /** Right after a successful re-login, a second call within 90 minutes
      makes no login attempt. */
  lemma NoReloginWithinWindow(s: Session, lists: Lists, now: int, later: int, login: LoginResponse,
                              login2: LoginResponse, fetches: seq<FetchResponse>, files: Files)
    requires |fetches| == |lists|
    requires LoginExpired(s, now) && Accepted(login)
    requires 0 <= later - now <= ExpirySeconds
    ensures var first := DownloadData(s, lists, now, login, fetches, files);
            DownloadData(first.session, lists, later, login2, fetches, first.files).loginAttempts == 0
  {
  }
}
