/** The database connection the resolvers share: the current contents of all
    tables, updated in place by every mutation, and the source of fresh
    primary keys. */
module Db {

  import opened DbSchema

  class Database {
    var tables: Tables
    /** A key no row uses yet; stands in for `defaultRandom()` UUIDs. */
    var nextId: Id

    ghost predicate Valid()
      reads this
    {
      TablesValid(tables) && IdsBelow(tables, nextId)
    }

    constructor ()
      ensures Valid()
      ensures tables == EmptyTables
    {
      tables := EmptyTables;
      nextId := 0;
    }
  }
}
