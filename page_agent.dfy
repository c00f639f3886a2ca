/** The page agent of contentScript.js: the module-level session state
    (`currentVideo`, `currentVideoBookmarks`, the three cached player
    elements), the part of the page and of extension storage it touches,
    and one method per handler. Each handler runs as one atomic step. */
module PageAgent {

  import opened Bookmarks
  import opened Markers
  import opened Shortcut
  import TimeFormat

  /** A playback position of the player, in seconds. The upper bound is the
      first second toISOString writes with a six-digit year. */
  type PlaybackTime = t: real | 0.0 <= t < TimeFormat.MaxIsoSeconds as real

  /** `"Bookmark at " + getTime(t)`. */
  function Description(t: PlaybackTime): string
  {
    "Bookmark at " + TimeFormat.GetTime(t)
  }

  /** The entry an add at playback time `t` creates. */
  function NewBookmark(t: PlaybackTime): Bookmark
  {
    Bookmark(t, Description(t))
  }

  /** What fetchBookmarks resolves to: the stored list when the runtime is
      there and the key is present, the empty list otherwise. */
  function StoredOrEmpty(storage: map<string, seq<Bookmark>>, video: string, runtimeAvailable: bool): seq<Bookmark>
  {
    if runtimeAvailable && video in storage then storage[video] else []
  }

  /** Every stored list is ascending by time. */
  predicate AllSorted(storage: map<string, seq<Bookmark>>)
  {
    forall v :: v in storage ==> Sorted(storage[v])
  }

  /** Storing an ascending list under one key keeps every list ascending. */
  lemma StoreSorted(storage: map<string, seq<Bookmark>>, video: string, list: seq<Bookmark>)
    requires AllSorted(storage) && Sorted(list)
    ensures AllSorted(storage[video := list])
  {
    var updated := storage[video := list];
    forall v | v in updated ensures Sorted(updated[v]) {
      if v != video {
        assert updated[v] == storage[v];
      }
    }
  }

  /** When every stored list is sorted, so are the fetched list and the list
      an add stores. */
  lemma SortedFetch(storage: map<string, seq<Bookmark>>, video: string, runtimeAvailable: bool, b: Bookmark)
    requires AllSorted(storage)
    ensures Sorted(StoredOrEmpty(storage, video, runtimeAvailable))
    ensures Sorted(AddedList(StoredOrEmpty(storage, video, runtimeAvailable), b))
  {
    AddedListSpec(StoredOrEmpty(storage, video, runtimeAvailable), b);
  }

  /** The messages the listener distinguishes; `Delete` carries the value
      `parseFloat` produced. */
  datatype Message = New(videoId: string) | Play(seekTo: PlaybackTime) | Delete(time: real) | DeleteAll | Other

  /** What the listener passes to `response`. */
  datatype Reply = NoReply | PlayerFound(found: bool) | BookmarkList(list: seq<Bookmark>)

  /** How a checkForPlayer probe ends: it returns false because an element
      is missing, it returns true, or it throws a TypeError at
      `chrome.runtime.getURL` because it has to create the button while the
      runtime is gone. */
  datatype ProbeOutcome = NotFound | Found | Threw

  /** The probe outcome a reply to NEW reports. `response(await init())`
      is not reached when the probe throws, so no reply means it threw. */
  function ProbeReported(reply: Reply): ProbeOutcome
  {
    match reply
    case PlayerFound(found) => if found then Found else NotFound
    case _ => Threw
  }

  class Agent {
    // Session state of the content script.
    var currentVideo: string
    var bookmarks: seq<Bookmark>     // currentVideoBookmarks
    var leftControls: bool           // youtubeLeftControls holds an element
    var player: bool                 // youtubePlayer holds an element
    var progressBar: bool            // youtubeProgressBar holds an element

    // What the agent sees of its environment.
    var storage: map<string, seq<Bookmark>>   // chrome.storage.sync, one decoded list per video id
    var runtimeAvailable: bool                // chrome.runtime present (lastError is never set outside a callback)
    var pageHasLeftControls: bool             // getElementsByClassName("ytp-left-controls")[0] exists
    var pageHasPlayer: bool                   // getElementsByClassName("video-stream")[0] exists
    var pageHasProgressBar: bool              // getElementsByClassName("ytp-progress-bar")[0] exists
    var buttons: nat                          // elements of class "bookmark-btn"
    var markers: seq<MarkerId>                // elements of class "bookmark-marker", in document order
    var currentTime: PlaybackTime             // the player's currentTime

    /** A freshly injected content script. */
    constructor (storage0: map<string, seq<Bookmark>>, runtime0: bool,
                 leftControls0: bool, player0: bool, progressBar0: bool, time0: PlaybackTime)
      ensures currentVideo == "" && bookmarks == []
      ensures !leftControls && !player && !progressBar
      ensures storage == storage0 && runtimeAvailable == runtime0
      ensures pageHasLeftControls == leftControls0 && pageHasPlayer == player0 && pageHasProgressBar == progressBar0
      ensures buttons == 0 && markers == [] && currentTime == time0
      ensures AllSorted(storage0) ==> Valid()
    {
      currentVideo, bookmarks := "", [];
      leftControls, player, progressBar := false, false, false;
      storage, runtimeAvailable := storage0, runtime0;
      pageHasLeftControls, pageHasPlayer, pageHasProgressBar := leftControls0, player0, progressBar0;
      buttons, markers, currentTime := 0, [], time0;
    }

    /** Every list the agent holds or has stored is ascending by time, and
        the page has at most one bookmark button. */
    ghost predicate Valid()
      reads this`bookmarks, this`storage, this`buttons
    {
      Sorted(bookmarks) && AllSorted(storage) && buttons <= 1
    }

    /** fetchBookmarks: the stored list for the current video, or the empty
        list when the key is absent or the runtime is gone. */
    method FetchBookmarks() returns (r: seq<Bookmark>)
      ensures runtimeAvailable && currentVideo in storage ==> r == storage[currentVideo]
      ensures !runtimeAvailable || currentVideo !in storage ==> r == []
    {
      if runtimeAvailable && currentVideo in storage {
        r := storage[currentVideo];
      } else {
        r := [];
      }
    }

    /** addBookmarkMarker: one marker with the time's id is appended. It
        reads the player's duration and appends to the progress bar, so it
        needs both elements. */
    method AddBookmarkMarker(t: real)
      requires player && progressBar
      modifies this`markers
      ensures markers == old(markers) + [Key(t)]
    {
      markers := markers + [Key(t)];
    }

    /** removeBookmarkMarker: `getElementById` finds the first marker with
        the id, if any, and that one is removed. */
    method RemoveBookmarkMarker(t: real)
      modifies this`markers
      ensures markers == RemoveFirst(old(markers), Key(t))
    {
      markers := RemoveFirst(markers, Key(t));
    }

    /** removeAllBookmarkMarkers: removes the first marker of the live
        collection until none is left. */
    method RemoveAllBookmarkMarkers()
      modifies this`markers
      ensures markers == []
    {
      while |markers| > 0
        decreases |markers|
      {
        markers := markers[1..];
      }
    }

    /** addAllBookmarkMarkers: one marker per bookmark, in list order. */
    method AddAllBookmarkMarkers(list: seq<Bookmark>)
      requires player && progressBar
      modifies this`markers
      ensures markers == old(markers) + KeysOf(list)
    {
      for i := 0 to |list|
        invariant markers == old(markers) + KeysOf(list[..i])
      {
        assert KeysOf(list[..i + 1]) == KeysOf(list[..i]) + [Key(list[i].time)];
        AddBookmarkMarker(list[i].time);
      }
      assert list[..|list|] == list;
    }

    /** The effect of addNewBookmarkEventHandler. Without a player element
        the first line throws and nothing happens. Otherwise the fetched
        list, extended by the new entry and sorted, is stored, and a marker
        is appended unless the progress bar is missing (which throws before
        the badge message is sent). With the runtime gone the fetch gives
        the empty list, so the stored list becomes the new entry alone, and
        `chrome.runtime.sendMessage` throws: no badge. As written the
        in-memory list becomes the fetched list; `synced` makes it the
        stored list instead. */
    twostate predicate AddEffect(badgeSent: bool, synced: bool)
      reads this
    {
      var fetched := StoredOrEmpty(old(storage), currentVideo, runtimeAvailable);
      var added := NewBookmark(currentTime);
      if !player then
        !badgeSent && bookmarks == old(bookmarks) && storage == old(storage) && markers == old(markers)
      else
        bookmarks == (if synced then AddedList(fetched, added) else fetched) &&
        storage == old(storage)[currentVideo := AddedList(fetched, added)] &&
        badgeSent == (progressBar && runtimeAvailable) &&
        if progressBar then markers == old(markers) + [Key(currentTime)] else markers == old(markers)
    }

    /** Lines 55-65 of the add handler: the new entry is built from the
        player's time, the list is fetched, and its sorted extension is
        stored. The in-memory list becomes the fetched list as written, or
        the stored list when `synced`. */
    method StoreNewBookmark(synced: bool)
      requires player
      modifies this`bookmarks, this`storage
      ensures var fetched := StoredOrEmpty(old(storage), currentVideo, runtimeAvailable);
        var list := AddedList(fetched, NewBookmark(currentTime));
        storage == old(storage)[currentVideo := list] &&
        bookmarks == if synced then list else fetched
      ensures old(Valid()) ==> Valid()
    {
      var added := NewBookmark(currentTime);
      var fetched := FetchBookmarks();
      assert fetched == StoredOrEmpty(storage, currentVideo, runtimeAvailable);
      var list := AddedList(fetched, added);
      if Valid() {
        SortedFetch(storage, currentVideo, runtimeAvailable, added);
        StoreSorted(storage, currentVideo, list);
      }
      bookmarks := if synced then list else fetched;
      storage := storage[currentVideo := list];
    }

    /** addNewBookmarkEventHandler as written, the handler of the button
        and of the shortcut. `badgeSent` says whether SHOW_BADGE was sent. */
    method AddNewBookmark() returns (badgeSent: bool)
      modifies this`bookmarks, this`storage, this`markers
      ensures AddEffect(badgeSent, false)
      ensures old(Valid()) ==> Valid()
    {
      if !player {
        return false;
      }
      StoreNewBookmark(false);
      if progressBar {
        AddBookmarkMarker(currentTime);
      }
      badgeSent := progressBar && runtimeAvailable;
    }

    /** The add handler with the in-memory list set to the list it stores,
        so that later deletions start from it. */
    method AddNewBookmarkSynced() returns (badgeSent: bool)
      modifies this`bookmarks, this`storage, this`markers
      ensures AddEffect(badgeSent, true)
      ensures player ==> currentVideo in storage && bookmarks == storage[currentVideo]
      ensures old(Valid()) ==> Valid()
    {
      if !player {
        return false;
      }
      StoreNewBookmark(true);
      if progressBar {
        AddBookmarkMarker(currentTime);
      }
      badgeSent := progressBar && runtimeAvailable;
    }

    /** The effect of one checkForPlayer probe: the three element references
        are looked up again; if all are there, the fetched list becomes the
        in-memory list, a button is inserted when there is none, and one
        marker per fetched bookmark is appended. Creating the button needs
        the runtime: without it the probe throws after the fetch, which
        then gave the empty list, and before the button and the markers. */
    twostate predicate ProbeEffect(outcome: ProbeOutcome)
      reads this
    {
      var ready := pageHasLeftControls && pageHasPlayer && pageHasProgressBar;
      leftControls == pageHasLeftControls && player == pageHasPlayer && progressBar == pageHasProgressBar &&
      (outcome == NotFound <==> !ready) &&
      (outcome == Threw <==> ready && !runtimeAvailable && old(buttons) == 0) &&
      match outcome
      case Found =>
        bookmarks == StoredOrEmpty(storage, currentVideo, runtimeAvailable) &&
        buttons == (if old(buttons) == 0 then 1 else old(buttons)) &&
        markers == old(markers) + KeysOf(bookmarks)
      case Threw =>
        bookmarks == [] && buttons == old(buttons) && markers == old(markers)
      case NotFound =>
        bookmarks == old(bookmarks) && buttons == old(buttons) && markers == old(markers)
    }

    /** checkForPlayer. Storage, the video id and the player's time do not
        change. */
    method CheckForPlayer() returns (outcome: ProbeOutcome)
      modifies this`leftControls, this`player, this`progressBar, this`bookmarks, this`buttons, this`markers
      ensures ProbeEffect(outcome)
      ensures old(Valid()) ==> Valid()
      ensures old(Valid()) && outcome == Found ==> buttons == 1
    {
      leftControls, player, progressBar := pageHasLeftControls, pageHasPlayer, pageHasProgressBar;
      if leftControls && player && progressBar {
        bookmarks := FetchBookmarks();
        if buttons == 0 {
          if !runtimeAvailable {
            return Threw;
          }
          buttons := 1;
        }
        AddAllBookmarkMarkers(bookmarks);
        return Found;
      }
      return NotFound;
    }

    /** NEW: the video id is replaced and the player is probed (init also
        adds the style sheet, which is not modelled). */
    method OnNew(videoId: string) returns (outcome: ProbeOutcome)
      modifies this`currentVideo, this`leftControls, this`player, this`progressBar, this`bookmarks, this`buttons, this`markers
      ensures currentVideo == videoId
      ensures ProbeEffect(outcome)
      ensures old(Valid()) ==> Valid()
    {
      currentVideo := videoId;
      outcome := CheckForPlayer();
    }

    /** PLAY: the player seeks; without a player element the assignment
        throws and nothing changes. */
    method OnPlay(value: PlaybackTime)
      modifies this`currentTime
      ensures currentTime == if player then value else old(currentTime)
    {
      if player {
        currentTime := value;
      }
    }

    /** DELETE: the in-memory list loses every entry at time `t`, is stored
        and sent back, and the first marker with the time's id goes. */
    method OnDelete(t: real) returns (reply: seq<Bookmark>)
      modifies this`bookmarks, this`storage, this`markers
      ensures bookmarks == Without(old(bookmarks), t)
      ensures storage == old(storage)[currentVideo := bookmarks]
      ensures markers == RemoveFirst(old(markers), Key(t))
      ensures reply == bookmarks
      ensures old(Valid()) ==> Valid()
    {
      bookmarks := Without(bookmarks, t);
      if old(Valid()) {
        WithoutSorted(old(bookmarks), t);
        StoreSorted(old(storage), currentVideo, bookmarks);
      }
      storage := storage[currentVideo := bookmarks];
      RemoveBookmarkMarker(t);
      reply := bookmarks;
    }

    /** DELETE_ALL: the list is emptied and stored, every marker goes, the
        empty list is sent back. */
    method OnDeleteAll() returns (reply: seq<Bookmark>)
      modifies this`bookmarks, this`storage, this`markers
      ensures bookmarks == [] && storage == old(storage)[currentVideo := []]
      ensures markers == [] && reply == []
      ensures old(Valid()) ==> Valid()
    {
      bookmarks := [];
      if old(Valid()) {
        StoreSorted(old(storage), currentVideo, bookmarks);
      }
      storage := storage[currentVideo := bookmarks];
      RemoveAllBookmarkMarkers();
      reply := bookmarks;
    }

    /** The page and the runtime are as they were. */
    twostate predicate EnvironmentKept()
      reads this
    {
      runtimeAvailable == old(runtimeAvailable) && pageHasLeftControls == old(pageHasLeftControls) &&
      pageHasPlayer == old(pageHasPlayer) && pageHasProgressBar == old(pageHasProgressBar)
    }

    /** The video id, the cached elements and the button are as they were. */
    twostate predicate SessionKept()
      reads this
    {
      currentVideo == old(currentVideo) && leftControls == old(leftControls) &&
      player == old(player) && progressBar == old(progressBar) && buttons == old(buttons)
    }

    /** The runtime.onMessage listener. NEW and PLAY never write storage;
        NEW replies with the probe's result unless the probe threw; a
        message of another type changes nothing. */
    method OnMessage(msg: Message) returns (reply: Reply)
      modifies this
      ensures EnvironmentKept()
      ensures msg.New? ==> (!reply.BookmarkList? && currentVideo == msg.videoId &&
        storage == old(storage) && currentTime == old(currentTime) && ProbeEffect(ProbeReported(reply)))
      ensures msg.Play? ==> (reply == NoReply && SessionKept() && storage == old(storage) &&
        bookmarks == old(bookmarks) && markers == old(markers) &&
        currentTime == (if player then msg.seekTo else old(currentTime)))
      ensures msg.Delete? ==> (SessionKept() && currentTime == old(currentTime) &&
        bookmarks == Without(old(bookmarks), msg.time) &&
        storage == old(storage)[currentVideo := bookmarks] &&
        markers == RemoveFirst(old(markers), Key(msg.time)) && reply == BookmarkList(bookmarks))
      ensures msg.DeleteAll? ==> (SessionKept() && currentTime == old(currentTime) &&
        bookmarks == [] && storage == old(storage)[currentVideo := []] &&
        markers == [] && reply == BookmarkList([]))
      ensures msg.Other? ==> reply == NoReply && unchanged(this)
      ensures old(Valid()) ==> Valid()
    {
      match msg
      case New(videoId) =>
        var outcome := OnNew(videoId);
        reply := if outcome == Threw then NoReply else PlayerFound(outcome == Found);
      case Play(seekTo) =>
        OnPlay(seekTo);
        reply := NoReply;
      case Delete(time) =>
        var list := OnDelete(time);
        reply := BookmarkList(list);
      case DeleteAll =>
        var list := OnDeleteAll();
        reply := BookmarkList(list);
      case Other =>
        reply := NoReply;
    }

    /** The keydown listener: the add handler runs exactly when the
        shortcut's guard holds. */
    method OnKeyDown(ev: KeyEvent) returns (badgeSent: bool)
      modifies this`bookmarks, this`storage, this`markers
      ensures TriggersAdd(ev) ==> AddEffect(badgeSent, false)
      ensures !TriggersAdd(ev) ==> (!badgeSent && bookmarks == old(bookmarks) &&
        storage == old(storage) && markers == old(markers))
      ensures old(Valid()) ==> Valid()
    {
      if TriggersAdd(ev) {
        badgeSent := AddNewBookmark();
      } else {
        badgeSent := false;
      }
    }
  }

  /** The bookmarks of the running example: at 10 and 30 seconds. */
  function ExampleList(): seq<Bookmark>
  {
    [Bookmark(10.0, "A"), Bookmark(30.0, "B")]
  }

  /** The entry an add at 20 seconds creates. */
  function ExampleAdded(): Bookmark
  {
    Bookmark(20.0, "Bookmark at 00:00:20")
  }

  lemma ExampleAdd()
    ensures NewBookmark(20.0) == ExampleAdded()
    ensures AddedList(ExampleList(), ExampleAdded()) == [Bookmark(10.0, "A"), ExampleAdded(), Bookmark(30.0, "B")]
  {
    TimeFormat.GetTimeTwentySeconds();
    AddBetweenExample(ExampleAdded());
  }

  /** Deleting 30 seconds from the list fetched before the add. */
  lemma ExampleDeleteStale()
    ensures Without(ExampleList(), 30.0) == [Bookmark(10.0, "A")]
  {
    var s := ExampleList();
    assert s[1..] == [Bookmark(30.0, "B")] && s[1..][1..] == [];
  }

  /** Deleting 30 seconds from the list the add stored. */
  lemma ExampleDeleteStored()
    ensures Without([Bookmark(10.0, "A"), ExampleAdded(), Bookmark(30.0, "B")], 30.0) == [Bookmark(10.0, "A"), ExampleAdded()]
  {
    DeleteLastExample(ExampleAdded());
  }

  /** A fresh agent on a page with all player elements, after NEW for
      video "v" whose stored list is the example list. */
  method ExampleSession(t: PlaybackTime) returns (a: Agent)
    ensures fresh(a)
    ensures a.currentVideo == "v" && a.storage == map["v" := ExampleList()] && a.runtimeAvailable
    ensures a.player && a.progressBar && a.currentTime == t
    ensures a.bookmarks == ExampleList() && a.buttons == 1 && a.markers == KeysOf(ExampleList())
    ensures a.pageHasLeftControls && a.pageHasPlayer && a.pageHasProgressBar
  {
    a := new Agent(map["v" := ExampleList()], true, true, true, true, t);
    assert a.buttons == 0 && a.markers == [];
    var outcome := a.OnNew("v");
    assert outcome == Found;
    assert a.bookmarks == StoredOrEmpty(map["v" := ExampleList()], "v", true) == ExampleList();
    assert a.markers == [] + KeysOf(ExampleList());
  }

  /** As written: a bookmark added at 20 seconds is stored, but the
      in-memory list stays the list fetched before the add, so deleting the
      bookmark at 30 seconds stores a list without the new one. */
  method AddThenDeleteLosesBookmark() returns (storedAfterAdd: seq<Bookmark>, storedAfterDelete: seq<Bookmark>)
    ensures storedAfterAdd == [Bookmark(10.0, "A"), ExampleAdded(), Bookmark(30.0, "B")]
    ensures storedAfterDelete == [Bookmark(10.0, "A")]
  {
    var a := ExampleSession(20.0);
    ExampleAdd();
    var sent := a.AddNewBookmark();
    assert a.bookmarks == ExampleList();
    assert a.storage["v"] == AddedList(ExampleList(), ExampleAdded());
    storedAfterAdd := a.storage["v"];
    var reply := a.OnDelete(30.0);
    ExampleDeleteStale();
    storedAfterDelete := a.storage["v"];
  }

  /** Corrected: with the in-memory list synced by the add, the same
      sequence keeps the bookmark at 20 seconds. */
  method SyncedAddThenDeleteKeepsBookmark() returns (storedAfterAdd: seq<Bookmark>, storedAfterDelete: seq<Bookmark>)
    ensures storedAfterAdd == [Bookmark(10.0, "A"), ExampleAdded(), Bookmark(30.0, "B")]
    ensures storedAfterDelete == [Bookmark(10.0, "A"), ExampleAdded()]
  {
    var a := ExampleSession(20.0);
    ExampleAdd();
    var sent := a.AddNewBookmarkSynced();
    var added := [Bookmark(10.0, "A"), ExampleAdded(), Bookmark(30.0, "B")];
    assert a.bookmarks == added;
    assert a.storage["v"] == added;
    storedAfterAdd := a.storage["v"];
    var reply := a.OnDelete(30.0);
    ExampleDeleteStored();
    storedAfterDelete := a.storage["v"];
  }

  /** Two successful probes leave one button and render every stored
      bookmark twice. */
  method RepeatedProbes() returns (buttons: nat, markers: seq<MarkerId>)
    ensures buttons == 1
    ensures markers == KeysOf(ExampleList()) + KeysOf(ExampleList()) && |markers| == 4
  {
    var a := ExampleSession(0.0);
    var second := a.OnNew("v");
    buttons, markers := a.buttons, a.markers;
  }

  /** A failed probe fetches nothing and inserts nothing. */
  method ProbeWithoutProgressBar() returns (outcome: ProbeOutcome, listLength: nat, buttons: nat, markerCount: nat)
    ensures outcome == NotFound && listLength == 0 && buttons == 0 && markerCount == 0
  {
    var a := new Agent(map["v" := ExampleList()], true, true, true, false, 0.0);
    outcome := a.OnNew("v");
    listLength, buttons, markerCount := |a.bookmarks|, a.buttons, |a.markers|;
  }

  /** Two bookmarks with the same time: DELETE drops both entries but only
      the first of their two markers. */
  method DeleteSharedTime() returns (listLength: nat, markerCount: nat)
    ensures listLength == 0 && markerCount == 1
  {
    var a := new Agent(map["v" := [Bookmark(5.0, "A"), Bookmark(5.0, "B")]], true, true, true, true, 0.0);
    var outcome := a.OnNew("v");
    var reply := a.OnDelete(5.0);
    RemoveFirstCount(a.markers, Key(5.0));
    listLength, markerCount := |a.bookmarks|, |a.markers|;
  }

  /** With the runtime gone, NEW on a page without a button: the probe
      caches the elements and empties the list, then throws while creating
      the button, so there is no button, no marker and no reply. A later
      add stores the new entry alone under the video, appends its marker,
      and throws before the badge message. */
  method RuntimeGoneSession() returns (reply: Reply, buttons: nat, stored: seq<Bookmark>, markerCount: nat, badgeSent: bool)
    ensures reply == NoReply && buttons == 0
    ensures stored == [ExampleAdded()] && markerCount == 1 && !badgeSent
  {
    var a := new Agent(map["v" := ExampleList()], false, true, true, true, 20.0);
    assert a.buttons == 0 && a.markers == [];
    reply := a.OnMessage(New("v"));
    assert a.player && a.progressBar && a.markers == [] && a.storage == map["v" := ExampleList()];
    buttons := a.buttons;
    ExampleAdd();
    badgeSent := a.AddNewBookmark();
    assert StoredOrEmpty(map["v" := ExampleList()], "v", false) == [];
    assert AddedList([], ExampleAdded()) == [ExampleAdded()];
    stored := a.storage["v"];
    markerCount := |a.markers|;
  }
}
