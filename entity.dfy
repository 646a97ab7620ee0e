/**
 * The domain entities: the immutable user record, the expense as the
 * `expenses` table stores it, and the mutable expense object the services
 * edit through its setters.
 */
module Entity {
  import opened Wrappers
  import opened Dates

  /** A registered user; never changed after construction. */
  datatype User = User(id: Option<int>, username: string, passwordHash: string, createdAt: Instant)

  /** The six fields of an expense object, as one value. */
  datatype ExpenseData = ExpenseData(id: Option<int>, userId: int, date: Instant, category: string,
                                     amountCents: int, description: string)

  /** One row of the `expenses` table. */
  datatype Row = Row(id: int, userId: int, date: Instant, category: string, amountCents: int, description: string)

  /**
   * An expense object. `id` and `userId` have no setters, so they are fixed
   * at construction; the other four fields each have a setter that replaces
   * that field alone. The getters are plain reads of these fields.
   */
  class Expense {
    const id: Option<int>
    const userId: int
    var date: Instant
    var category: string
    var amountCents: int
    var description: string

    constructor(id: Option<int>, userId: int, date: Instant, category: string, amountCents: int, description: string)
      ensures Fields() == ExpenseData(id, userId, date, category, amountCents, description)
    {
      this.id := id;
      this.userId := userId;
      this.date := date;
      this.category := category;
      this.amountCents := amountCents;
      this.description := description;
    }

    /** The six fields as one value. */
    function Fields(): ExpenseData
      reads this
    {
      ExpenseData(id, userId, date, category, amountCents, description)
    }

    method SetDate(date: Instant)
      modifies this
      ensures Fields() == old(Fields()).(date := date)
    {
      this.date := date;
    }

    method SetCategory(category: string)
      modifies this
      ensures Fields() == old(Fields()).(category := category)
    {
      this.category := category;
    }

    method SetAmountCents(cents: int)
      modifies this
      ensures Fields() == old(Fields()).(amountCents := cents)
    {
      this.amountCents := cents;
    }

    method SetDescription(description: string)
      modifies this
      ensures Fields() == old(Fields()).(description := description)
    {
      this.description := description;
    }
  }

  /** The object `createExpenseFromData` builds from a stored row, as a value. */
  function DataOfRow(r: Row): ExpenseData
  {
    ExpenseData(Some(r.id), r.userId, r.date, r.category, r.amountCents, r.description)
  }
}
