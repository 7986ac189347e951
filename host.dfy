/**
 * The parts of the machine the scripts change besides the server: the text of
 * the `.env` file (None when the file does not exist), whether the
 * `.indexes_added` flag file exists, and the process's `INDEXES_ADDED`
 * environment variable (None when unset).
 */
module Host {
  import opened Wrappers

  class Machine {
    var dotenv: Option<string>
    var flagFile: bool
    var indexesAdded: Option<string>

    constructor (dotenv: Option<string>, flagFile: bool, indexesAdded: Option<string>)
      ensures this.dotenv == dotenv && this.flagFile == flagFile && this.indexesAdded == indexesAdded
    {
      this.dotenv := dotenv;
      this.flagFile := flagFile;
      this.indexesAdded := indexesAdded;
    }
  }
}
