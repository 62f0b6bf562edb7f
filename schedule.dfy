/** `createScheduleController` and `hardDeleteScheduleById`
    (src/controllers/schedule.controller.ts). */
module ScheduleController {
  import opened Js
  import opened Guards
  import opened Store
  import opened TimeOfDay

  /** The fields of the request body the create handler reads. */
  datatype ScheduleBody = ScheduleBody(staffId: Value, day: Value, start: Value, end: Value, note: Value)

  const StaffIdRequired := "Staff id is required"
  const DayRequired := "Schedule day is required"
  const StartRequired := "Schedule start time is required"
  const EndRequired := "Schedule end time is required"
  const InvalidDay := "Invalid schedule day"
  const StaffNotFound := "Staff not found"
  const StartFormat := "Schedule start time must be in HH:MM format"
  const EndFormat := "Schedule end time must be in HH:MM format"
  const StartInvalid := "Schedule start time is invalid"
  const EndInvalid := "Schedule end time is invalid"
  const NotBefore := "Schedule start time must be before end time"
  const Created := "Create schedule successful"

  /** The four required fields are present. */
  predicate Present(body: ScheduleBody) {
    !Falsy(body.staffId) && !Falsy(body.day) && !Falsy(body.start) && !Falsy(body.end)
  }

  /** Every guard before the time checks passes: the day is valid and the staff exists. */
  predicate Located(body: ScheduleBody, staff: map<Id, Staff>) {
    Present(body) && ParseDay(body.day).Some? && Finds(staff, body.staffId)
  }

  /** The handler's guards, in the order it runs them. */
  function Checks(body: ScheduleBody, staff: map<Id, Staff>): seq<Check> {
    var start, end := ToText(body.start), ToText(body.end);
    [ Check(!Falsy(body.staffId), 400, StaffIdRequired),
      Check(!Falsy(body.day), 400, DayRequired),
      Check(!Falsy(body.start), 400, StartRequired),
      Check(!Falsy(body.end), 400, EndRequired),
      Check(ParseDay(body.day).Some?, 400, InvalidDay),
      Check(Finds(staff, body.staffId), 404, StaffNotFound),
      Check(IsHHMM(start), 400, StartFormat),
      Check(IsHHMM(end), 400, EndFormat),
      Check(IsHHMM(start) && InRange(Clock(start)), 400, StartInvalid),
      Check(IsHHMM(end) && InRange(Clock(end)), 400, EndInvalid),
      Check(IsHHMM(start) && IsHHMM(end) && StartsBefore(Clock(start), Clock(end)), 400, NotBefore) ]
  }

  /** The create handler's reply to `body` against the staff table: a
      schedule is created, with its times stored as sent, exactly when the
      required fields are present, the day is valid, the staff exists and the
      times form a valid slot. */
  function CreateScheduleReply(body: ScheduleBody, staff: map<Id, Staff>): (r: Reply<Schedule>)
    ensures r.status == 201 <==> (Located(body, staff) && body.start.Str? && body.end.Str?
                                  && ValidSlot(body.start.s, body.end.s))
    ensures r.status == 201 ==>
              r == Reply(201, Created, Some(Schedule(body.staffId.s, ParseDay(body.day).value,
                                                     body.start.s, body.end.s, body.note)))
    ensures r.status != 201 ==> r.data.None?
  {
    HHMMValueIsString(body.start);
    HHMMValueIsString(body.end);
    var cs := Checks(body, staff);
    var k := FirstFailing(cs);
    assert cs == [cs[0], cs[1], cs[2], cs[3], cs[4], cs[5], cs[6], cs[7], cs[8], cs[9], cs[10]];
    if k < |cs| then Refuse(cs[k])
    else
      Reply(201, Created, Some(Schedule(body.staffId.s, ParseDay(body.day).value,
                                        body.start.s, body.end.s, body.note)))
  }

  /** Which guard answers a refused request. The required fields are checked
      in order, then the day, then the staff lookup, which answers 404
      whatever the times look like; only then the time format, the hour and
      minute bounds, and start before end. */
  lemma CreateScheduleGuardOrder(body: ScheduleBody, staff: map<Id, Staff>)
    ensures var r := CreateScheduleReply(body, staff);
      (Falsy(body.staffId) ==> r == Reply(400, StaffIdRequired, None))
      && (!Falsy(body.staffId) && Falsy(body.day) ==> r == Reply(400, DayRequired, None))
      && (!Falsy(body.staffId) && !Falsy(body.day) && Falsy(body.start) ==> r == Reply(400, StartRequired, None))
      && ((!Falsy(body.staffId) && !Falsy(body.day) && !Falsy(body.start) && Falsy(body.end))
          ==> r == Reply(400, EndRequired, None))
      && (Present(body) && ParseDay(body.day).None? ==> r == Reply(400, InvalidDay, None))
      && ((Present(body) && ParseDay(body.day).Some? && !Finds(staff, body.staffId))
          ==> r == Reply(404, StaffNotFound, None))
      && (Located(body, staff) && !ValueIsHHMM(body.start) ==> r == Reply(400, StartFormat, None))
      && ((Located(body, staff) && ValueIsHHMM(body.start) && !ValueIsHHMM(body.end))
          ==> r == Reply(400, EndFormat, None))
      && ((Located(body, staff) && ValueIsHHMM(body.start) && ValueIsHHMM(body.end)
           && !InRange(Clock(body.start.s))) ==> r == Reply(400, StartInvalid, None))
      && ((Located(body, staff) && ValueIsHHMM(body.start) && ValueIsHHMM(body.end)
           && InRange(Clock(body.start.s)) && !InRange(Clock(body.end.s))) ==> r == Reply(400, EndInvalid, None))
      && ((Located(body, staff) && ValueIsHHMM(body.start) && ValueIsHHMM(body.end)
           && InRange(Clock(body.start.s)) && InRange(Clock(body.end.s))
           && !StartsBefore(Clock(body.start.s), Clock(body.end.s))) ==> r == Reply(400, NotBefore, None))
  {
    HHMMValueIsString(body.start);
    HHMMValueIsString(body.end);
    var cs := Checks(body, staff);
    assert cs == [cs[0], cs[1], cs[2], cs[3], cs[4], cs[5], cs[6], cs[7], cs[8], cs[9], cs[10]];
  }

  /** A created schedule's times lie within one day, with hours at most 23,
      minutes at most 59, and the start strictly earlier in minutes since
      midnight than the end; in particular equal times are refused. */
  lemma CreatedScheduleIsOrdered(body: ScheduleBody, staff: map<Id, Staff>)
    requires CreateScheduleReply(body, staff).status == 201
    ensures var row := CreateScheduleReply(body, staff).data.value;
      var s, e := Clock(row.start), Clock(row.end);
      0 <= s.0 <= 23 && 0 <= s.1 <= 59 && 0 <= e.0 <= 23 && 0 <= e.1 <= 59
      && MinutesSinceMidnight(s) < MinutesSinceMidnight(e) && row.start != row.end
  {
    var row := CreateScheduleReply(body, staff).data.value;
    ValidSlotBounds(row.start, row.end);
  }

  /** The create handler's guards run against the store, in the handler's
      order, with the handler's early returns; nothing is written. */
  method CheckSchedule(db: Db, body: ScheduleBody) returns (reply: Reply<Schedule>)
    ensures reply == CreateScheduleReply(body, db.staff)
  {
    CreateScheduleGuardOrder(body, db.staff);
    if Falsy(body.staffId) {
      return Reply(400, StaffIdRequired, None);
    }
    if Falsy(body.day) {
      return Reply(400, DayRequired, None);
    }
    if Falsy(body.start) {
      return Reply(400, StartRequired, None);
    }
    if Falsy(body.end) {
      return Reply(400, EndRequired, None);
    }
    var day := ParseDay(body.day);
    if day.None? {
      return Reply(400, InvalidDay, None);
    }
    if !Finds(db.staff, body.staffId) {
      return Reply(404, StaffNotFound, None);
    }
    if !ValueIsHHMM(body.start) {
      return Reply(400, StartFormat, None);
    }
    if !ValueIsHHMM(body.end) {
      return Reply(400, EndFormat, None);
    }
    HHMMValueIsString(body.start);
    HHMMValueIsString(body.end);
    var start, end := body.start.s, body.end.s;
    var (startHour, startMinute) := Clock(start);
    var (endHour, endMinute) := Clock(end);
    if startHour > 23 || startMinute > 59 {
      return Reply(400, StartInvalid, None);
    }
    if endHour > 23 || endMinute > 59 {
      return Reply(400, EndInvalid, None);
    }
    if startHour > endHour || (startHour == endHour && startMinute >= endMinute) {
      return Reply(400, NotBefore, None);
    }
    reply := Reply(201, Created, Some(Schedule(body.staffId.s, day.value, start, end, body.note)));
  }

  /** The create handler: run the guards, then create the schedule. */
  method CreateSchedule(db: Db, body: ScheduleBody, newId: Id) returns (reply: Reply<Schedule>)
    requires db.Valid() && newId !in db.schedules
    modifies db`schedules
    ensures db.Valid()
    ensures reply == CreateScheduleReply(body, old(db.staff))
    ensures db.schedules == Insert(old(db.schedules), reply, newId)
  {
    reply := CheckSchedule(db, body);
    if reply.status == 201 {
      var row := reply.data.value;
      assert ValidSlot(row.start, row.end) && row.staffId in db.staff;
      db.schedules := db.schedules[newId := row];
    }
  }

  // ---------------------------------------------------------------- delete

  const IdRequired := "Schedule id is required"
  const ScheduleNotFound := "Schedule not found"
  const Deleted := "Delete schedule successful"

  /** `typeof req.params.id === "string" ? req.params.id : undefined`. */
  function IdParam(v: Value): Value {
    if v.Str? then v else Absent
  }

  /** The delete handler's reply for route parameter `id`: a missing or empty
      id is a 400, an id with no schedule a 404, and otherwise the schedule is
      deleted. */
  function DeleteScheduleReply(id: Value, schedules: map<Id, Schedule>): (r: Reply<Schedule>)
    ensures !(id.Str? && id.s != "") ==> r == Reply(400, IdRequired, None)
    ensures id.Str? && id.s != "" && id.s !in schedules ==> r == Reply(404, ScheduleNotFound, None)
    ensures r.status == 200 <==> id.Str? && id.s != "" && id.s in schedules
    ensures r.status == 200 ==> r == Reply(200, Deleted, None)
  {
    var cs := [ Check(!Falsy(IdParam(id)), 400, IdRequired),
                Check(Finds(schedules, IdParam(id)), 404, ScheduleNotFound) ];
    var k := FirstFailing(cs);
    assert cs == [cs[0], cs[1]];
    if k < |cs| then Refuse(cs[k]) else Reply(200, Deleted, None)
  }

  /** The schedule table after the delete handler's reply. */
  function AfterDelete(schedules: map<Id, Schedule>, id: Value, reply: Reply<Schedule>): map<Id, Schedule> {
    if reply.status == 200 && id.Str? then schedules - {id.s} else schedules
  }

  /** A successful delete removes exactly the named schedule; a refused one removes nothing. */
  lemma DeleteRemovesExactlyOne(id: Value, schedules: map<Id, Schedule>)
    ensures var r := DeleteScheduleReply(id, schedules);
      var after := AfterDelete(schedules, id, r);
      (r.status == 200 ==> id.s in schedules && id.s !in after && |after| == |schedules| - 1)
      && (r.status != 200 ==> after == schedules)
      && forall k | k in schedules && !(id.Str? && k == id.s) :: k in after && after[k] == schedules[k]
  {
    var r := DeleteScheduleReply(id, schedules);
    if r.status == 200 {
      assert schedules.Keys - {id.s} == AfterDelete(schedules, id, r).Keys;
    }
  }

  /** The delete handler: check the id, look the schedule up, delete it. */
  method DeleteSchedule(db: Db, id: Value) returns (reply: Reply<Schedule>)
    requires db.Valid()
    modifies db`schedules
    ensures db.Valid()
    ensures reply == DeleteScheduleReply(id, old(db.schedules))
    ensures db.schedules == AfterDelete(old(db.schedules), id, reply)
  {
    var param := IdParam(id);
    if Falsy(param) {
      return Reply(400, IdRequired, None);
    }
    if param.s !in db.schedules {
      return Reply(404, ScheduleNotFound, None);
    }
    db.schedules := db.schedules - {param.s};
    reply := Reply(200, Deleted, None);
  }
}
