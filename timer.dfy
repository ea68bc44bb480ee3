/**
 * The timer object of script.js: the closure variables shared by
 * `startTimer`, the interval callback, `pauseTimer`, `resetTimer`, the two
 * duration `change` handlers, the startup code and the `beforeunload`
 * handler, with the two duration inputs and the browser's cookie jar.
 * Every method's new state is stated through the functions of TimerSteps.
 */
module Timer {
  import opened Wrappers
  import opened Numbers
  import opened Cookies
  import TimerSteps

  /** The cookie holding the study total. */
  const TotalKey: string := "totalStudyTime"

  /** The text `setCookie(TotalKey, total, 365)` stores: `(value || "")` turns 0 into the empty string. */
  function PersistedText(total: int): (t: string)
    ensures ValidValue(t)
    ensures t == "" <==> total == 0
  {
    if total == 0 then "" else IntToString(total)
  }

  /** The total the startup code seeds from `document.cookie`: 0 when the cookie is missing or not a number. */
  function SeededTotal(cookie: string): (r: int)
    ensures CookieValue(cookie, TotalKey).None? ==> r == 0
    ensures r != 0 ==> CookieValue(cookie, TotalKey).Some? && ParseInt(CookieValue(cookie, TotalKey).value) == Some(r)
    ensures CookieValue(cookie, TotalKey).Some? && ParseInt(CookieValue(cookie, TotalKey).value).Some? ==>
      r == ParseInt(CookieValue(cookie, TotalKey).value).value
  {
    match CookieValue(cookie, TotalKey)
    case None => 0
    case Some(saved) =>
      match ParseInt(saved)
      case None => 0
      case Some(n) => n
  }

  /** The startup code's reading of the stored total. */
  method LoadTotal(cookie: string) returns (total: int)
    ensures total == SeededTotal(cookie)
  {
    total := 0;
    var savedTime := GetCookie(cookie, TotalKey);
    if savedTime.Some? {
      var parsed := ParseInt(savedTime.value);
      if parsed.Some? {
        total := parsed.value;
      }
    }
  }

  /** The jar after the timer stores `total`. */
  function StoreTotal(jar: seq<Cookie>, total: int): (r: seq<Cookie>)
    ensures Lookup(r, TotalKey) == Some(PersistedText(total))
    ensures forall n :: n != TotalKey ==> Lookup(r, n) == Lookup(jar, n)
    ensures ValidJar(jar) ==> ValidJar(r)
  {
    var c := Cookie(TotalKey, PersistedText(total));
    UpsertLookup(jar, c, TotalKey);
    assert forall n :: n != TotalKey ==> Lookup(Upsert(jar, c), n) == Lookup(jar, n) by {
      forall n | n != TotalKey
        ensures Lookup(Upsert(jar, c), n) == Lookup(jar, n)
      {
        UpsertLookup(jar, c, n);
      }
    }
    assert ValidJar(jar) ==> ValidJar(Upsert(jar, c)) by {
      if ValidJar(jar) {
        TotalKeyValid();
        UpsertValid(jar, c);
      }
    }
    Upsert(jar, c)
  }

  /** `setCookie(TotalKey, total, 365)` stores exactly the pair (TotalKey, PersistedText(total)). */
  lemma SetCookieStoresTotal(jar: seq<Cookie>, total: int)
    ensures Assign(jar, SetCookieString(TotalKey, PersistedText(total))) == StoreTotal(jar, total)
  {
    TotalKeyValid();
  }

  /**
   * Persistence round trip: whatever total is stored, a reload seeds exactly
   * that total (0 included, which goes through the `NaN` path), and the
   * other cookies read as before.
   */
  lemma PersistRoundTrip(jar: seq<Cookie>, total: int, other: string)
    requires ValidJar(jar) && ValidName(other)
    ensures ValidJar(StoreTotal(jar, total))
    ensures SeededTotal(DocumentCookie(StoreTotal(jar, total))) == total
    ensures other != TotalKey ==>
      CookieValue(DocumentCookie(StoreTotal(jar, total)), other) == CookieValue(DocumentCookie(jar), other)
  {
    TotalKeyValid();
    SetCookieStoresTotal(jar, total);
    CookieRoundTrip(jar, TotalKey, PersistedText(total), other);
    if total != 0 {
      IntRoundTrip(total);
    }
  }

  lemma TotalKeyValid()
    ensures ValidName(TotalKey)
  {
  }

  /** Startup seeds 0 when the cookie is absent. */
  lemma MissingCookieSeedsZero(jar: seq<Cookie>)
    requires ValidJar(jar)
    requires Lookup(jar, TotalKey) == None
    ensures SeededTotal(DocumentCookie(jar)) == 0
  {
    TotalKeyValid();
    CookieValueOfJar(jar, TotalKey);
  }

  /** Startup seeds 0, and does not fail, when the cookie holds the corrupt text "abc". */
  lemma CorruptCookieSeedsZero(jar: seq<Cookie>)
    requires ValidJar(jar)
    requires Lookup(jar, TotalKey) == Some("abc")
    ensures SeededTotal(DocumentCookie(jar)) == 0
  {
    TotalKeyValid();
    CookieValueOfJar(jar, TotalKey);
    NoLeadingDigitIsNaN("abc");
  }

  /**
   * Startup seeds the number at the front of the stored text, whatever
   * follows it: a stored "12abc" seeds 12, a stored "-5" seeds -5.
   */
  lemma TrailingTextSeeds(jar: seq<Cookie>, i: int, t: string)
    requires ValidJar(jar)
    requires t == [] || !IsDigit(t[0])
    requires Lookup(jar, TotalKey) == Some(IntToString(i) + t)
    ensures SeededTotal(DocumentCookie(jar)) == i
  {
    TotalKeyValid();
    CookieValueOfJar(jar, TotalKey);
    TrailingTextIgnored(i, t);
  }

  class PhaseTimer {
    var isWorking: bool
    var timeInSeconds: int
    var isPaused: bool
    var totalStudyTime: int
    /** The values of the work-duration and break-duration inputs, in minutes. */
    var workMinutes: int
    var breakMinutes: int
    /** The browser's cookie jar. */
    var cookies: seq<Cookie>

    /** The browser keeps its jar well formed. */
    ghost predicate Valid()
      reads this
    {
      ValidJar(cookies)
    }

    function State(): TimerSteps.TimerState
      reads this
    {
      TimerSteps.TimerState(isWorking, timeInSeconds, isPaused, totalStudyTime)
    }

    /** The closure's initial state: a paused 25:00 work phase with a zero total. */
    constructor (jar: seq<Cookie>, workMinutes: int, breakMinutes: int)
      requires ValidJar(jar)
      ensures Valid()
      ensures State() == TimerSteps.TimerState(true, 25 * 60, true, 0)
      ensures this.workMinutes == workMinutes && this.breakMinutes == breakMinutes && cookies == jar
    {
      isWorking := true;
      timeInSeconds := 25 * 60;
      isPaused := true;
      totalStudyTime := 0;
      this.workMinutes := workMinutes;
      this.breakMinutes := breakMinutes;
      cookies := jar;
    }

    /** The page-load seeding: the total becomes what the stored cookie says; nothing else changes. */
    method SeedTotal()
      modifies this`totalStudyTime
      ensures totalStudyTime == SeededTotal(DocumentCookie(cookies))
    {
      var cookie := DocumentCookie(cookies);
      totalStudyTime := LoadTotal(cookie);
    }

    /** `startTimer`. */
    method Start()
      modifies this
      ensures State() == TimerSteps.Start(old(State()))
      ensures old(!isPaused) ==> unchanged(this)
      ensures workMinutes == old(workMinutes) && breakMinutes == old(breakMinutes) && cookies == old(cookies)
    {
      if !isPaused {
        return;
      }
      isPaused := false;
    }

    /** The interval callback; it only fires while the timer runs. */
    method Tick()
      requires !isPaused
      modifies this
      ensures State() == TimerSteps.Tick(old(State()), workMinutes, breakMinutes)
      ensures workMinutes == old(workMinutes) && breakMinutes == old(breakMinutes) && cookies == old(cookies)
    {
      timeInSeconds := timeInSeconds - 1;
      if isWorking {
        totalStudyTime := totalStudyTime + 1;
      }
      if timeInSeconds <= 0 {
        isWorking := !isWorking;
        timeInSeconds := (if isWorking then workMinutes else breakMinutes) * 60;
      }
    }

    /** `setCookie('totalStudyTime', totalStudyTime, 365)`. */
    method SaveTotal(total: int)
      requires Valid()
      modifies this`cookies
      ensures Valid()
      ensures cookies == StoreTotal(old(cookies), total)
    {
      PersistRoundTrip(cookies, total, TotalKey);
      SetCookieStoresTotal(cookies, total);
      cookies := Assign(cookies, SetCookieString(TotalKey, PersistedText(total)));
    }

    /** `pauseTimer`: stop, keep phase, time and total, and store the total. */
    method Pause()
      requires Valid()
      modifies this
      ensures Valid()
      ensures State() == TimerSteps.Pause(old(State()))
      ensures cookies == StoreTotal(old(cookies), totalStudyTime)
      ensures workMinutes == old(workMinutes) && breakMinutes == old(breakMinutes)
    {
      isPaused := true;
      SaveTotal(totalStudyTime);
    }

    /** `resetTimer`: pause, then a fresh work phase of the configured length and a zero total. */
    method Reset()
      requires Valid()
      modifies this
      ensures Valid()
      ensures State() == TimerSteps.Reset(old(State()), workMinutes)
      ensures cookies == StoreTotal(StoreTotal(old(cookies), old(totalStudyTime)), totalStudyTime)
      ensures workMinutes == old(workMinutes) && breakMinutes == old(breakMinutes)
    {
      Pause();
      isWorking := true;
      timeInSeconds := workMinutes * 60;
      totalStudyTime := 0;
      SaveTotal(totalStudyTime);
    }

    /**
     * The user types `minutes` into the work-duration input. The value changes
     * at once, before any `change` event: a phase flip in `Tick` reads it.
     */
    method TypeWorkMinutes(minutes: int)
      modifies this`workMinutes
      ensures workMinutes == minutes
    {
      workMinutes := minutes;
    }

    /** The user types `minutes` into the break-duration input; as for the work input, no handler runs. */
    method TypeBreakMinutes(minutes: int)
      modifies this`breakMinutes
      ensures breakMinutes == minutes
    {
      breakMinutes := minutes;
    }

    /** The work-duration input's `change` handler, after the input holds `minutes`. */
    method SetWorkDuration(minutes: int)
      modifies this
      ensures State() == TimerSteps.EditWork(old(State()), minutes)
      ensures workMinutes == minutes && breakMinutes == old(breakMinutes) && cookies == old(cookies)
    {
      TypeWorkMinutes(minutes);
      if isPaused && isWorking {
        timeInSeconds := workMinutes * 60;
      }
    }

    /** The break-duration input's `change` handler, after the input holds `minutes`. */
    method SetBreakDuration(minutes: int)
      modifies this
      ensures State() == TimerSteps.EditBreak(old(State()), minutes)
      ensures breakMinutes == minutes && workMinutes == old(workMinutes) && cookies == old(cookies)
    {
      TypeBreakMinutes(minutes);
      if isPaused && !isWorking {
        timeInSeconds := breakMinutes * 60;
      }
    }

    /** The `beforeunload` handler: store the total whether or not the timer was paused. */
    method Unload()
      requires Valid()
      modifies this
      ensures Valid()
      ensures State() == old(State())
      ensures cookies == StoreTotal(old(cookies), totalStudyTime)
      ensures workMinutes == old(workMinutes) && breakMinutes == old(breakMinutes)
    {
      SaveTotal(totalStudyTime);
    }
  }
}
