/** The `users` table of src/bot/database.js, reduced to what the core reads
    and writes: the status of each phone. A map keys users by phone, so the
    UNIQUE constraint on `phone` holds by construction. */
module UserStore {

  /** The `status` column: 'pending' (its default) or 'active'. */
  datatype Status = Pending | Active

  /** Phones whose status is 'active'. */
  function ActivePhones(users: map<string, Status>): set<string> {
    set p | p in users && users[p] == Active
  }

  /** `SELECT COUNT(*) FROM users WHERE status = 'active'`. */
  function ActiveCount(users: map<string, Status>): (n: nat)
    ensures n <= |users|
  {
    assert ActivePhones(users) <= users.Keys;
    SubsetCardinality(ActivePhones(users), users.Keys);
    |ActivePhones(users)|
  }

  lemma {:induction false} SubsetCardinality<T>(a: set<T>, b: set<T>)
    requires a <= b
    ensures |a| <= |b|
    decreases |b|
  {
    if a != {} {
      var x :| x in a;
      SubsetCardinality(a - {x}, b - {x});
    }
  }

  /** Activating a phone counts it once among the active users, whether its
      row was inserted, switched from pending, or already active. */
  lemma ActivationCountsOnce(users: map<string, Status>, phone: string)
    ensures ActiveCount(users[phone := Active])
            == ActiveCount(users) + (if phone in users && users[phone] == Active then 0 else 1)
  {
    var after := users[phone := Active];
    if phone in users && users[phone] == Active {
      assert ActivePhones(after) == ActivePhones(users);
    } else {
      assert ActivePhones(after) == ActivePhones(users) + {phone};
    }
  }

  /** The `users` table. */
  class UserTable {
    var status: map<string, Status>

    constructor ()
      ensures status == map[]
    {
      status := map[];
    }

    /** `INSERT INTO users (phone, status) VALUES ($1, 'active')
        ON CONFLICT (phone) DO UPDATE SET status = 'active'`: the phone ends
        active, inserted if absent; false and no change when the store fails. */
    method Upsert(phone: string, fault: bool) returns (ok: bool)
      modifies this
      ensures ok == !fault
      ensures status == if ok then old(status)[phone := Active] else old(status)
    {
      if fault {
        return false;
      }
      status := status[phone := Active];
      return true;
    }

    /** `UPDATE users SET status = 'active' WHERE phone = $2`: only an existing
        row changes; no row is ever inserted. */
    method ActivateExisting(phone: string, fault: bool) returns (ok: bool)
      modifies this
      ensures ok == !fault
      ensures status == if ok && phone in old(status) then old(status)[phone := Active] else old(status)
    {
      if fault {
        return false;
      }
      if phone in status {
        status := status[phone := Active];
      }
      return true;
    }
  }
}
