/** The stored entry: a multi-valued attribute map with case-insensitive names (`iron_store::model::Entry`). */
module Entries {
  import opened Options
  import opened Text

  datatype Entry = Entry(attrs: map<string, seq<string>>) {
    /** `Entry::get` */
    function Get(attr: string): Option<seq<string>> {
      if Lower(attr) in attrs then Some(attrs[Lower(attr)]) else None
    }

    /** The values of `attr`, none when it is absent. */
    function Values(attr: string): seq<string> {
      if Lower(attr) in attrs then attrs[Lower(attr)] else []
    }

    /** `Entry::set` */
    function Set(attr: string, values: seq<string>): Entry {
      Entry(attrs[Lower(attr) := values])
    }
  }
}
