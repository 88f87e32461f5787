/** The record types of src/model/mod.rs. Ids are SQLite rowids (`i64`). */
module Model {

  /** A group as read back from the store. */
  datatype EntryGroup = EntryGroup(id: int, data: EntryGroupData) {

    /** `EntryGroup::new` */
    static function New(id: int, data: EntryGroupData): (g: EntryGroup)
      ensures g.id == id && g.Data() == data
    {
      EntryGroup(id, data)
    }

    function Data(): EntryGroupData {
      data
    }
  }

  /** The serialised part of a group: its name only. */
  datatype EntryGroupData = EntryGroupData(groupName: string) {

    /** `EntryGroupData::new` */
    static function New(groupName: string): (d: EntryGroupData)
      ensures d.groupName == groupName
    {
      EntryGroupData(groupName)
    }
  }

  /** An entry as read back from the store. */
  datatype Entry = Entry(id: int, data: EntryData) {

    /** `Entry::new` */
    static function New(id: int, data: EntryData): (e: Entry)
      ensures e.id == id && e.Data() == data
    {
      Entry(id, data)
    }

    function Data(): EntryData {
      data
    }
  }

  /** The serialised part of an entry. */
  datatype EntryData = EntryData(entryName: string, username: string, password: string) {

    /** `EntryData::new` */
    static function New(entryName: string, username: string, password: string): (d: EntryData)
      ensures d.Name() == entryName && d.Username() == username && d.Password() == password
    {
      EntryData(entryName, username, password)
    }

    function Name(): string {
      entryName
    }

    function Username(): string {
      username
    }

    function Password(): string {
      password
    }
  }
}
