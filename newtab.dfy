/** The new-tab page as a whole: the callback that restores the stored
    state once `chrome.storage.local.get` answers. */
module NewTab {
  import opened JsObject
  import opened TextArea
  import opened Notes
  import opened Wallpaper

  /** The four keys read back from `chrome.storage.local`; a key never
      written reads as `None`. */
  datatype StoredState = StoredState(
    notes: Option<Table<Note>>,
    activeNoteId: Option<string>,
    wallpaperIndex: Option<int>,
    wallpaperMode: Option<string>)

  /** The stored-state callback: restore the notes and the active note
      (today's daily note when none was stored), list every note, load the
      active one into the editor, then restore the wallpaper and start the
      slideshow in slideshow mode; in any other mode only show the wallpaper,
      leaving a slideshow started before the callback running. `iso` is the
      clock reading `new Date().toISOString()`. Returns the ids
      `renderList()` lists. */
  method OnStateLoaded(store: NoteStore, scheduler: Scheduler, editor: Editor, data: StoredState, iso: string)
    returns (listed: seq<string>)
    requires scheduler.Valid()
    modifies store, scheduler, editor
    ensures var id := RestoredActiveId(data.activeNoteId, TodayId(iso));
            && store.activeNoteId == Some(id)
            && store.notes == RestoredNotes(data.notes, id)
            && store.saved == old(store.saved) + [NotesSnapshot(store.notes, store.activeNoteId)]
            && editor.Valid() && editor.value == store.notes.entries[id].content
            && editor.selectionStart == CaretFor(store.notes.entries[id]) == editor.selectionEnd
    ensures store.Ready() && store.Persisted()
    ensures listed == store.notes.keys
    ensures scheduler.Valid()
    ensures scheduler.wallpaperIndex == data.wallpaperIndex.GetOr(0)
    ensures scheduler.wallpaperMode == data.wallpaperMode.GetOr(Slideshow)
    ensures scheduler.shown == Some(scheduler.wallpaperIndex) && scheduler.saved == old(scheduler.saved)
    ensures scheduler.wallpaperMode == Slideshow ==>
              scheduler.slideshowInterval == Some(old(scheduler.nextHandle)) &&
              scheduler.timers == {old(scheduler.nextHandle)}
    ensures scheduler.wallpaperMode != Slideshow ==>
              scheduler.slideshowInterval == old(scheduler.slideshowInterval) &&
              scheduler.timers == old(scheduler.timers)
    ensures old(scheduler.slideshowInterval).None? ==>
              scheduler.Consistent() && (scheduler.wallpaperMode == Slideshow <==> scheduler.slideshowInterval.Some?)
  {
    var today := TodayId(iso);
    store.Restore(data.notes, data.activeNoteId, today, editor);
    listed := Search(store.notes, []);
    SearchEmptyListsAll(store.notes);
    scheduler.ResumeAsWritten(data.wallpaperIndex, data.wallpaperMode);
  }

  /** The stored-state callback with the wallpaper half corrected: a mode
      other than slideshow also stops a running slideshow, so afterwards a
      timer runs exactly in slideshow mode, whatever ran before. */
  method OnStateLoadedCorrected(store: NoteStore, scheduler: Scheduler, editor: Editor, data: StoredState, iso: string)
    returns (listed: seq<string>)
    requires scheduler.Valid()
    modifies store, scheduler, editor
    ensures var id := RestoredActiveId(data.activeNoteId, TodayId(iso));
            && store.activeNoteId == Some(id)
            && store.notes == RestoredNotes(data.notes, id)
            && store.saved == old(store.saved) + [NotesSnapshot(store.notes, store.activeNoteId)]
            && editor.Valid() && editor.value == store.notes.entries[id].content
            && editor.selectionStart == CaretFor(store.notes.entries[id]) == editor.selectionEnd
    ensures store.Ready() && store.Persisted()
    ensures listed == store.notes.keys
    ensures scheduler.Consistent()
    ensures scheduler.wallpaperIndex == data.wallpaperIndex.GetOr(0)
    ensures scheduler.wallpaperMode == data.wallpaperMode.GetOr(Slideshow)
    ensures scheduler.shown == Some(scheduler.wallpaperIndex) && scheduler.saved == old(scheduler.saved)
    ensures scheduler.wallpaperMode == Slideshow <==> scheduler.slideshowInterval.Some?
  {
    var today := TodayId(iso);
    store.Restore(data.notes, data.activeNoteId, today, editor);
    listed := Search(store.notes, []);
    SearchEmptyListsAll(store.notes);
    scheduler.Resume(data.wallpaperIndex, data.wallpaperMode);
  }
}
