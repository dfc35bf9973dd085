/**
 * The MQTT topic table (main/mqtt_topics.cpp): one descriptor per topic id,
 * the id being the descriptor's index.  Every full topic is the fixed root
 * "voda/septik/" followed by the entry's relative path.
 */
module MqttTopics {
  import opened Wrappers
  import opened Chars

  datatype Direction = PublishOnly | SubscribeOnly

  datatype PayloadKind = Number | Boolean | Text | Json

  /**
   * One row of the table.  The C struct stores the full topic; here the
   * relative path is stored and `FullTopic` pastes the root in front of it,
   * as the `TOPIC_ENTRY` macro does.
   */
  datatype TopicDescriptor = TopicDescriptor(
    id: nat,
    path: string,
    direction: Direction,
    kind: PayloadKind,
    qos: nat,
    retain: bool)
  {
    function FullTopic(): string {
      Root + path
    }
  }

  /** The prefix `TOPIC_ENTRY` pastes in front of every relative path. */
  const Root: string := "voda/septik/"

  /** `mqtt_topic_id_t::COUNT`. */
  const Count: nat := 46

  /** Topic ids, in table order. */
  const StavZasobaObjem: nat := 0
  const StavZasobaHladina: nat := 1
  const StavCerpaniPrutok: nat := 2
  const StavCerpaniCerpanoCelkem: nat := 3
  const StavTeplotaVoda: nat := 4
  const StavTeplotaVzduch: nat := 5
  const StavTlakPredFiltrem: nat := 6
  const StavTlakZaFiltrem: nat := 7
  const StavRozdilTlakuFiltru: nat := 8
  const StavZanesenostFiltruPercent: nat := 9
  const StavCerpaniPumpaBezi: nat := 10
  const StavCerpaniPumpaVykonCinnyW: nat := 11
  const StavCerpaniPumpaJalovyVykonVar: nat := 12
  const StavCerpaniPumpaCosfi: nat := 13
  const StavCerpaniPumpaProudA: nat := 14
  const StavCerpaniPumpaNapetiV: nat := 15
  const StavCerpaniPumpaEnergieCinnaKwh: nat := 16
  const StavCerpaniPumpaEnergieJalovaKvarh: nat := 17
  const SystemStatus: nat := 18
  const SystemBootMode: nat := 19
  const SystemOtaEvent: nat := 20
  const SystemOtaProgress: nat := 21
  const SystemRebootReason: nat := 22
  const SystemRebootCounter: nat := 23
  const SystemLastDisconnectDurationS: nat := 24
  const DiagFwVersion: nat := 25
  const DiagBuildTimestamp: nat := 26
  const DiagGitHash: nat := 27
  const DiagUptimeS: nat := 28
  const DiagWifiRssiDbm: nat := 29
  const DiagWifiReconnectTry: nat := 30
  const DiagWifiReconnectSuccess: nat := 31
  const DiagMqttReconnects: nat := 32
  const DiagLastMqttRc: nat := 33
  const DiagHeapFreeB: nat := 34
  const DiagHeapMinFreeB: nat := 35
  const DiagEspVccMv: nat := 36
  const DiagNvsErrors: nat := 37
  const DiagTeplotaScan: nat := 38
  const CmdReboot: nat := 39
  const CmdWebapp: nat := 40
  const CmdDebug: nat := 41
  const CmdLogLevel: nat := 42
  const CmdOtaStart: nat := 43
  const CmdOtaConfirm: nat := 44
  const CmdTeplotaScan: nat := 45


  /**
   * Row `id` of `MQTT_TOPIC_TABLE`.  The last row (id 45, cmd/teplota/scan)
   * is the final `else`.
   */
  function Row(id: nat): (d: TopicDescriptor)
    requires id < Count
    ensures d.id == id && d.path != []
  {
    if id == 0 then TopicDescriptor(0, "stav/zasoba/objem_m3", PublishOnly, Number, 1, true)
    else if id == 1 then TopicDescriptor(1, "stav/zasoba/hladina_m", PublishOnly, Number, 1, true)
    else if id == 2 then TopicDescriptor(2, "stav/cerpani/prutok_l_min", PublishOnly, Number, 1, true)
    else if id == 3 then TopicDescriptor(3, "stav/cerpani/cerpano_celkem_l", PublishOnly, Number, 1, true)
    else if id == 4 then TopicDescriptor(4, "stav/teplota/voda", PublishOnly, Number, 1, true)
    else if id == 5 then TopicDescriptor(5, "stav/teplota/vzduch", PublishOnly, Number, 1, true)
    else if id == 6 then TopicDescriptor(6, "stav/tlak/pred_filtrem_bar", PublishOnly, Number, 1, true)
    else if id == 7 then TopicDescriptor(7, "stav/tlak/za_filtrem_bar", PublishOnly, Number, 1, true)
    else if id == 8 then TopicDescriptor(8, "stav/tlak/rozdil_filtru_bar", PublishOnly, Number, 1, true)
    else if id == 9 then TopicDescriptor(9, "stav/zanesenost_filtru_percent", PublishOnly, Number, 1, true)
    else if id == 10 then TopicDescriptor(10, "stav/cerpani/pumpa/bezi", PublishOnly, Boolean, 1, true)
    else if id == 11 then TopicDescriptor(11, "stav/cerpani/pumpa/vykon_cinny_w", PublishOnly, Number, 1, true)
    else if id == 12 then TopicDescriptor(12, "stav/cerpani/pumpa/jalovy_vykon_var", PublishOnly, Number, 1, true)
    else if id == 13 then TopicDescriptor(13, "stav/cerpani/pumpa/cosfi", PublishOnly, Number, 1, true)
    else if id == 14 then TopicDescriptor(14, "stav/cerpani/pumpa/proud_a", PublishOnly, Number, 1, true)
    else if id == 15 then TopicDescriptor(15, "stav/cerpani/pumpa/napeti_v", PublishOnly, Number, 1, true)
    else if id == 16 then TopicDescriptor(16, "stav/cerpani/pumpa/energie_cinna_kwh", PublishOnly, Number, 1, true)
    else if id == 17 then TopicDescriptor(17, "stav/cerpani/pumpa/energie_jalova_kvarh", PublishOnly, Number, 1, true)
    else if id == 18 then TopicDescriptor(18, "system/status", PublishOnly, Text, 1, true)
    else if id == 19 then TopicDescriptor(19, "system/boot_mode", PublishOnly, Text, 1, true)
    else if id == 20 then TopicDescriptor(20, "system/ota/event", PublishOnly, Text, 1, false)
    else if id == 21 then TopicDescriptor(21, "system/ota/progress", PublishOnly, Number, 1, false)
    else if id == 22 then TopicDescriptor(22, "system/reboot_reason", PublishOnly, Text, 1, true)
    else if id == 23 then TopicDescriptor(23, "system/reboot_counter", PublishOnly, Number, 1, true)
    else if id == 24 then TopicDescriptor(24, "system/last_disconnect_duration_s", PublishOnly, Number, 1, true)
    else if id == 25 then TopicDescriptor(25, "diag/fw_version", PublishOnly, Text, 1, true)
    else if id == 26 then TopicDescriptor(26, "diag/build_timestamp", PublishOnly, Text, 1, true)
    else if id == 27 then TopicDescriptor(27, "diag/git_hash", PublishOnly, Text, 1, true)
    else if id == 28 then TopicDescriptor(28, "diag/uptime_s", PublishOnly, Number, 1, true)
    else if id == 29 then TopicDescriptor(29, "diag/wifi_rssi_dbm", PublishOnly, Number, 1, true)
    else if id == 30 then TopicDescriptor(30, "diag/wifi_reconnect_try", PublishOnly, Number, 1, true)
    else if id == 31 then TopicDescriptor(31, "diag/wifi_reconnect_success", PublishOnly, Number, 1, true)
    else if id == 32 then TopicDescriptor(32, "diag/mqtt_reconnects", PublishOnly, Number, 1, true)
    else if id == 33 then TopicDescriptor(33, "diag/last_mqtt_rc", PublishOnly, Number, 1, true)
    else if id == 34 then TopicDescriptor(34, "diag/heap_free_b", PublishOnly, Number, 1, true)
    else if id == 35 then TopicDescriptor(35, "diag/heap_min_free_b", PublishOnly, Number, 1, true)
    else if id == 36 then TopicDescriptor(36, "diag/esp_vcc_mv", PublishOnly, Number, 1, true)
    else if id == 37 then TopicDescriptor(37, "diag/nvs_errors", PublishOnly, Number, 1, true)
    else if id == 38 then TopicDescriptor(38, "diag/teplota_scan", PublishOnly, Json, 1, false)
    else if id == 39 then TopicDescriptor(39, "cmd/reboot", SubscribeOnly, Text, 1, false)
    else if id == 40 then TopicDescriptor(40, "cmd/webapp", SubscribeOnly, Text, 1, false)
    else if id == 41 then TopicDescriptor(41, "cmd/debug", SubscribeOnly, Text, 1, false)
    else if id == 42 then TopicDescriptor(42, "cmd/log/level", SubscribeOnly, Text, 1, false)
    else if id == 43 then TopicDescriptor(43, "cmd/ota/start", SubscribeOnly, Text, 1, false)
    else if id == 44 then TopicDescriptor(44, "cmd/ota/confirm", SubscribeOnly, Text, 1, false)
    else TopicDescriptor(45, "cmd/teplota/scan", SubscribeOnly, Text, 1, false)
  }

  /** A command path is one below "cmd/"; its full topic is below "voda/septik/cmd/". */
  predicate IsCommandPath(path: string) {
    |path| >= 4 && path[0] == 'c' && path[1] == 'm' && path[2] == 'd' && path[3] == '/'
  }

  /** `mqtt_topic_descriptor`: the table entry of an in-range id, else NULL. */
  function Descriptor(id: int): (r: Option<TopicDescriptor>)
    ensures r.Some? <==> 0 <= id < Count
    ensures r.Some? ==> r.value.id == id && r.value == Row(id)
  {
    if 0 <= id < Count then Some(Row(id)) else None
  }

  /** Every full topic is the root followed by a non-empty relative path. */
  lemma AllTopicsUnderRoot()
    ensures forall i :: 0 <= i < Count ==> |Row(i).FullTopic()| > |Root| && HasPrefix(Row(i).FullTopic(), Root)
  {
    forall i | 0 <= i < Count
      ensures |Row(i).FullTopic()| > |Root| && HasPrefix(Row(i).FullTopic(), Root)
    {
      UnderRoot(Row(i).path);
    }
  }

  lemma UnderRoot(path: string)
    requires path != []
    ensures |Root + path| > |Root| && HasPrefix(Root + path, Root)
  {
    assert (Root + path)[..|Root|] == Root;
  }

  predicate CommandShape(d: TopicDescriptor) {
    (d.direction == SubscribeOnly <==> IsCommandPath(d.path)) &&
    (d.direction == SubscribeOnly ==> d.kind == Text && d.qos == 1 && !d.retain)
  }

  /** Every row, checked one id at a time, a block of ids per lemma. */
  lemma RowsCommandShape0To12()
    ensures forall i :: 0 <= i < 12 ==> CommandShape(Row(i))
  {
    forall i | 0 <= i < 12
      ensures CommandShape(Row(i))
    {
      if i == 0 {
        assert CommandShape(Row(0));
      } else if i == 1 {
        assert CommandShape(Row(1));
      } else if i == 2 {
        assert CommandShape(Row(2));
      } else if i == 3 {
        assert CommandShape(Row(3));
      } else if i == 4 {
        assert CommandShape(Row(4));
      } else if i == 5 {
        assert CommandShape(Row(5));
      } else if i == 6 {
        assert CommandShape(Row(6));
      } else if i == 7 {
        assert CommandShape(Row(7));
      } else if i == 8 {
        assert CommandShape(Row(8));
      } else if i == 9 {
        assert CommandShape(Row(9));
      } else if i == 10 {
        assert CommandShape(Row(10));
      } else {
        assert i == 11;
      }
    }
  }

  lemma RowsCommandShape12To24()
    ensures forall i :: 12 <= i < 24 ==> CommandShape(Row(i))
  {
    forall i | 12 <= i < 24
      ensures CommandShape(Row(i))
    {
      if i == 12 {
        assert CommandShape(Row(12));
      } else if i == 13 {
        assert CommandShape(Row(13));
      } else if i == 14 {
        assert CommandShape(Row(14));
      } else if i == 15 {
        assert CommandShape(Row(15));
      } else if i == 16 {
        assert CommandShape(Row(16));
      } else if i == 17 {
        assert CommandShape(Row(17));
      } else if i == 18 {
        assert CommandShape(Row(18));
      } else if i == 19 {
        assert CommandShape(Row(19));
      } else if i == 20 {
        assert CommandShape(Row(20));
      } else if i == 21 {
        assert CommandShape(Row(21));
      } else if i == 22 {
        assert CommandShape(Row(22));
      } else {
        assert i == 23;
      }
    }
  }

  lemma RowsCommandShape24To36()
    ensures forall i :: 24 <= i < 36 ==> CommandShape(Row(i))
  {
    forall i | 24 <= i < 36
      ensures CommandShape(Row(i))
    {
      if i == 24 {
        assert CommandShape(Row(24));
      } else if i == 25 {
        assert CommandShape(Row(25));
      } else if i == 26 {
        assert CommandShape(Row(26));
      } else if i == 27 {
        assert CommandShape(Row(27));
      } else if i == 28 {
        assert CommandShape(Row(28));
      } else if i == 29 {
        assert CommandShape(Row(29));
      } else if i == 30 {
        assert CommandShape(Row(30));
      } else if i == 31 {
        assert CommandShape(Row(31));
      } else if i == 32 {
        assert CommandShape(Row(32));
      } else if i == 33 {
        assert CommandShape(Row(33));
      } else if i == 34 {
        assert CommandShape(Row(34));
      } else {
        assert i == 35;
      }
    }
  }

  lemma RowsCommandShape36To41()
    ensures forall i :: 36 <= i < 41 ==> CommandShape(Row(i))
  {
    forall i | 36 <= i < 41
      ensures CommandShape(Row(i))
    {
      if i == 36 {
        assert CommandShape(Row(36));
      } else if i == 37 {
        assert CommandShape(Row(37));
      } else if i == 38 {
        assert CommandShape(Row(38));
      } else if i == 39 {
        assert CommandShape(Row(39));
      } else {
        assert i == 40;
      }
    }
  }

  lemma RowsCommandShape41To46()
    ensures forall i :: 41 <= i < 46 ==> CommandShape(Row(i))
  {
    forall i | 41 <= i < 46
      ensures CommandShape(Row(i))
    {
      if i == 41 {
        assert CommandShape(Row(41));
      } else if i == 42 {
        assert CommandShape(Row(42));
      } else if i == 43 {
        assert CommandShape(Row(43));
      } else if i == 44 {
        assert CommandShape(Row(44));
      } else {
        assert i == 45;
      }
    }
  }

  /**
   * Exactly the cmd/ entries are subscribed to, and each is a TEXT topic with
   * QoS 1 and no retain flag.
   */
  lemma CommandTopicsAreSubscribeOnly()
    ensures forall i :: 0 <= i < Count ==>
      (Row(i).direction == SubscribeOnly <==> IsCommandPath(Row(i).path))
    ensures forall i :: 0 <= i < Count && Row(i).direction == SubscribeOnly ==>
      Row(i).kind == Text && Row(i).qos == 1 && !Row(i).retain
  {
    RowsCommandShape0To12();
    RowsCommandShape12To24();
    RowsCommandShape24To36();
    RowsCommandShape36To41();
    RowsCommandShape41To46();
  }

  /** The log-level command listens on "voda/septik/cmd/log/level". */
  lemma LogLevelTopic()
    ensures Row(CmdLogLevel).FullTopic() == "voda/septik/cmd/log/level"
    ensures Row(CmdLogLevel).direction == SubscribeOnly
  {
    var d := Row(CmdLogLevel);
    assert d.path == "cmd/log/level" && d.direction == SubscribeOnly;
    assert Root + "cmd/log/level" == "voda/septik/cmd/log/level";
  }
}
