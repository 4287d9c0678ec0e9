/**
 * A service an employer bought (`EmployerService`): saving it fills in the end
 * of the subscription from the service's duration, and the subscription is
 * active until that moment.
 */
module Services {
  import opened Wrappers
  import opened Calendar
  import opened Models

  /**
   * The end date `save` stores: one already set is kept, a missing one becomes
   * the start plus the service's duration in calendar months.
   */
  function EndDateOnSave(endDate: Option<DateTime>, startDate: DateTime, months: int): (r: DateTime)
    requires WellFormed(startDate)
    ensures endDate.Some? ==> r == endDate.value
    ensures endDate.None? ==> MonthIndex(r) == MonthIndex(startDate) + months && r.second == startDate.second
    ensures endDate.None? ==> WellFormed(r) && r.day <= startDate.day
    ensures endDate.None? && startDate.day <= DaysInMonth(r.year, r.month) ==> r.day == startDate.day
    ensures endDate.None? && r.day < startDate.day ==> r.day == DaysInMonth(r.year, r.month)
  {
    if endDate.None? then AddMonths(startDate, months) else endDate.value
  }

  /** Saving twice leaves the end date where the first save put it. */
  lemma SaveIsIdempotent(endDate: Option<DateTime>, startDate: DateTime, months: int)
    requires WellFormed(startDate)
    ensures var first := EndDateOnSave(endDate, startDate, months);
      EndDateOnSave(Some(first), startDate, months) == first
  {
  }

  /** A subscription of at least one month ends strictly after it starts. */
  lemma DefaultEndIsAfterStart(startDate: DateTime, months: int)
    requires WellFormed(startDate) && months >= 1
    ensures Before(startDate, EndDateOnSave(None, startDate, months))
  {
    AddMonthsIsLater(startDate, months);
  }

  class EmployerService {
    var userId: int
    var service: Service
    var startDate: DateTime
    var endDate: Option<DateTime>
    var isActive: bool

    /** A new subscription; `is_active` defaults to true and `end_date` may be left unset. */
    constructor (userId: int, service: Service, startDate: DateTime, endDate: Option<DateTime>)
      ensures this.userId == userId && this.service == service
      ensures this.startDate == startDate && this.endDate == endDate
      ensures isActive
    {
      this.userId := userId;
      this.service := service;
      this.startDate := startDate;
      this.endDate := endDate;
      this.isActive := true;
    }

    /** `save`: fills in a missing end date and changes nothing else. */
    method Save()
      requires WellFormed(startDate)
      modifies this
      ensures userId == old(userId) && service == old(service) && startDate == old(startDate) && isActive == old(isActive)
      ensures endDate == Some(EndDateOnSave(old(endDate), startDate, service.duration))
      ensures old(endDate).Some? ==> endDate == old(endDate)
    {
      if endDate.None? {
        endDate := Some(AddMonths(startDate, service.duration));
      }
    }

    /** `is_service_active`: active and strictly before the end date, so no longer active at the end date itself. */
    function IsServiceActive(now: DateTime): (r: bool)
      reads this
      requires endDate.Some?
      ensures r ==> isActive
      ensures !Before(now, endDate.value) ==> !r
      ensures isActive && Before(now, endDate.value) ==> r
    {
      isActive && Before(now, endDate.value)
    }
  }

  /**
   * A freshly saved active subscription of at least one month is active from
   * its start and stops being active at its end date.
   */
  lemma ActiveFromStartUntilEnd(s: EmployerService)
    requires WellFormed(s.startDate) && s.isActive && s.service.duration >= 1
    requires s.endDate == Some(EndDateOnSave(None, s.startDate, s.service.duration))
    ensures s.IsServiceActive(s.startDate)
    ensures !s.IsServiceActive(s.endDate.value)
  {
    DefaultEndIsAfterStart(s.startDate, s.service.duration);
  }
}
