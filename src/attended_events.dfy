/** The `useAttendedEvents` hook: the ids of the events the visitor marked
    as attended, kept in a state cell and mirrored to `localStorage`. */
module AttendedEvents {
  import opened IdLists

  class AttendedEventsHook {
    /** The state cell. */
    var attended: seq<string>
    /** The `amooora_attended_events` entry of `localStorage`. */
    var saved: Entry<seq<string>>

    /** Mounting reads the stored list, or starts from an empty one. */
    constructor (stored: Entry<seq<string>>)
      ensures attended == Load(stored, [])
      ensures saved == stored
    {
      attended := Load(stored, []);
      saved := stored;
    }

    /** `toggleAttendedEvent`: updates the list and saves it. */
    method ToggleAttendedEvent(eventId: string)
      modifies this
      ensures attended == Toggle(old(attended), eventId)
      ensures saved == Holds(attended)
      ensures HasAttended(eventId) == !old(HasAttended(eventId))
      ensures forall other :: other != eventId ==> HasAttended(other) == old(HasAttended(other))
    {
      ToggleMembership(attended, eventId);
      var next: seq<string>;
      if eventId in attended {
        next := Without(attended, eventId);
      } else {
        next := attended + [eventId];
      }
      attended := next;
      saved := Holds(next);
    }

    /** `hasAttended`. */
    function HasAttended(eventId: string): bool
      reads this
    {
      eventId in attended
    }

    /** `getAttendedEvents`. */
    function GetAttendedEvents(): seq<string>
      reads this
    {
      attended
    }

    /** `clearAttendedEvents`: an empty list, saved. */
    method ClearAttendedEvents()
      modifies this
      ensures attended == [] && saved == Holds([])
      ensures forall eventId :: !HasAttended(eventId)
    {
      attended := [];
      saved := Holds([]);
    }
  }
}
